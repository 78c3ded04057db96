# Verified models of QEMU 2.0 and kvm-kmod 3.16

This project models ten pieces of QEMU 2.0 and kvm-kmod 3.16 whose code is much more intricate than what it is for, and
proves that the code does what it is for.  Run `dafny verify dfyconfig.toml` with Dafny 4.11.

| module | models |
|---|---|
| `PhysMap`, `Sections`, `Dispatch` | physical address dispatch: the six-level radix tree with path compression and subpages (`exec.c`) |
| `BlockRequests`, `BlockIo` | tracked and serialising block requests as a state machine; unaligned reads and writes (`block.c`) |
| `Xbzrle`, `MigrationScan`, `Migration` | live migration of RAM: delta encoding, the search for dirty pages, the whole migration (`arch_init.c`, `xbzrle.c`, `page_cache.c`) |
| `Srcu` | sleepable RCU grace periods as a state machine (`srcu.c`) |
| `GuestBlocks`, `ElfDump` | guest-physical blocks and the ELF dump (`memory_mapping.c`, `dump.c`) |
| `Vmcore`, `KdumpPages`, `KdumpBitmap`, `Kdump` | the kdump-compressed dump, written and read back (`dump.c`) |
| `Tlb` | the software TLB with its summary of large pages (`cputlb.c`) |
| `EventLoop` | bottom halves and fd handlers under re-entrant polling (`async.c`, `aio-posix.c`) |
| `RamList` | the RAM block allocator and its cached lookup (`exec.c`) |
| `Gdb` | GDB packet layer: hex, escaping, framing, receiving (`gdbstub.c`) |
| `Div64` | 64-by-64-bit division by shifting (`external-module-compat.c`) |
| `Arith`, `Numbers`, `Values` | facts about integer division, bytes as bits and as numbers, and small types used by the others |

The main results, in words:

* **Dispatch.** For every list of pairwise disjoint sections, the tree that `mem_begin`, `mem_add` and `mem_commit` build
  answers every 64-bit address like a linear search of the list (`Dispatch.BuildDispatch`).  Path compression does make
  the walk answer for wrong addresses (`Sections.CompactionBlurs`); the range check in `phys_page_find` undoes exactly
  that (`Sections.CompactionInvisible`).
  One `phys_page_set` allocates at most `2 * P_L2_LEVELS - 1` nodes, so its reservation is never outgrown.
* **Block requests.** In every interleaving of any number of requests, two overlapping requests of which one is serialising
  are never both past their wait; a disk byte changes only to the data of a write that was asked to write it, and every
  read and write that completes has done what it was asked for; there is no cycle of waiting requests and always somebody
  who can move.
* **Migration.** Everything is stated for any interleaving of guest stores, bitmap syncs and page sends.  The claim that no
  page is lost is false in one situation: in the bulk stage, when the last page of the last block (not the first page of its
  block) is the only dirty page and was the last one sent.  `MigrationScan.LossGuard` is that situation,
  `Migration.LostPage` reaches it, `Migration.GuardLoses` shows what it costs, and outside it no bit is ever cleared
  without its page arriving (`Migration.RamMigration.RamSaveBlock`, `RamSaveComplete`).  So of a whole run
  (`Migration.RamMigration.Migrate`) all of memory arrives, but for at most that one page, and just if a call was made
  under the guard.
* **SRCU.** Every reader inside when `__synchronize_srcu` is called has left when it returns, on both paths; and once they
  have left it can return.
* **Dumps.** In an ELF dump every program header points at the guest's bytes, all of them that the block has, and reads back
  from the file if and only if its fields fit the ELF class.  A kdump file read back frame by frame through its own bitmap
  and descriptors is the guest.
* **TLB, event loop, RAM list, GDB, division.** After any history no stale entry is left by a flush, and the region is
  the smallest block around the large pages installed since the last full flush; nothing freed under a walk and nothing that was
  due forgotten, nor what a wait finds; best fit and a unique answer; round trips, and on any stream of bytes no line is
  handled that was not framed in it with its own checksum; a result that is off by one at most, and when.

Where the source works in place the model does too: classes with the source's fields, loops with the source's tests.  The
two protocols whose point is interleaving, block requests and SRCU, are state machines over the atomic steps of the code.
Callbacks, the running guest, device drivers, compression and the contents of headers are arbitrary: they appear as
nondeterministic choices or as function parameters.  Ghost fields and ghost parameters only carry proofs.

## Model

| member | source | states |
|---|---|---|
| PhysMap.LookupFrame | qemu-2.0/exec.c:278-292 | a walk reads only nodes whose block of pages lies inside that of the entry it starts from, so work elsewhere cannot change it |
| PhysMap.LookupMod | qemu-2.0/exec.c:286-291 | a walk from a height uses only the digits of the page number below it |
| PhysMap.ReplaceKid | qemu-2.0/exec.c:188-203 | work below one slot of a node, then a write to that slot, is seen through the node in that slot only |
| PhysMap.PaintKid | qemu-2.0/exec.c:190-203 | what is set below a slot is what is set in its node, and nothing else |
| PhysMap.SlotFits | qemu-2.0/exec.c:190-203 | the slots of one call together never need more nodes than the call may allocate: one per level, two on a range open on both sides |
| PhysMap.CoarserKid | qemu-2.0/exec.c:232-244 | compacting one slot changes answers of its node only from unassigned to some section found in it |
| PhysMap.CoarserMerge | qemu-2.0/exec.c:246-266 | so does folding a node with one used slot into the entry above it |
| PhysMap.MergeOk | qemu-2.0/exec.c:246-266 | the folded entry still leads to a node of the right height inside the block |
| PhysMap.TightKid | qemu-2.0/exec.c:232-244 | once the subtree of a slot is compacted, work on other slots leaves it so |
| PhysMap.TightMerge | qemu-2.0/exec.c:246-266 | folding the one used slot of a node leaves no such node below it |
| Sections.LinearSearch | qemu-2.0/exec.c:278-306 | the reference answer: the first section of a list that covers an address, or none |
| Sections.CoversRange | qemu-2.0/exec.c:293-295 | for an announced section the test covers just its range |
| Sections.FindIsRaw | qemu-2.0/exec.c:293-305 | before compaction the range check never changes the answer of the walk |
| Sections.VacantPageIsFree | qemu-2.0/exec.c:897-925 | a page whose addresses are all unassigned has no entry in the tree |
| Sections.VacantPieceFinds | qemu-2.0/exec.c:900-912 | a piece of a page that is to be registered finds there nothing or a subpage container of that page |
| Sections.MultipageStep | qemu-2.0/exec.c:928-938 | entering a run of pages changes the answer of exactly the addresses of the run |
| Sections.ContainerStep | qemu-2.0/exec.c:912-917 | entering an empty subpage container changes no answer |
| Sections.PieceStep | qemu-2.0/exec.c:921-925 | filling part of a subpage table changes the answer of exactly the addresses of the piece |
| Sections.CompactionInvisible | qemu-2.0/exec.c:278-321 | for any tree that a compaction can leave, lookup with its range check and subpage resolution answers every address as before |
| Sections.CompactionBlurs | qemu-2.0/exec.c:246-266 | with one section of a 512th of what the tree spans (a 128th of the 64-bit addresses), compaction makes the walk give that section for every page behind it; only the range check keeps them unassigned |
| Sections.CompactionInBounds | qemu-2.0/exec.c:278-321 | and never leaves the section table or a subpage table |
| Sections.AnnounceNext | qemu-2.0/exec.c:940-971 | registering the next piece of a section extends the part of it that lookups answer for |
| Sections.HeadPiece | qemu-2.0/exec.c:947-955 | the first piece cut off a section ends at a page boundary, in 64-bit wrap-around arithmetic too |
| Sections.AnswersGrow | qemu-2.0/exec.c:940-971 | adding a section apart from the earlier ones keeps their answers and adds its own |
| Dispatch.AddressSpaceDispatch.constructor | qemu-2.0/exec.c:1801-1819 | the four fixed sections, each for its region, and an empty tree: every address is unassigned |
| Dispatch.AddressSpaceDispatch.NodeReserve | qemu-2.0/exec.c:147-154 | afterwards the asked number of nodes fits the array, which never shrinks |
| Dispatch.AddressSpaceDispatch.NodeAlloc | qemu-2.0/exec.c:156-169 | a new node of empty slots; its assertions hold |
| Dispatch.AddressSpaceDispatch.SetSlot | qemu-2.0/exec.c:193-203 | one pass of the loop: the slot is set or the call goes down, pages of the range in the slot and no others change |
| Dispatch.AddressSpaceDispatch.SetLevel | qemu-2.0/exec.c:171-204 | exactly the pages of the range in this block are set, index and nb advance past them, nodes allocated stay within the bound |
| Dispatch.AddressSpaceDispatch.PageSet | qemu-2.0/exec.c:206-214 | exactly the pages asked for are set, with at most 2 * P_L2_LEVELS - 1 new nodes |
| Dispatch.AddressSpaceDispatch.CompactSlot | qemu-2.0/exec.c:229-244 | one pass of the loop: compacts below the slot, touches nothing outside its block |
| Dispatch.AddressSpaceDispatch.Compact | qemu-2.0/exec.c:216-267 | keeps the tree well formed, changes answers only from unassigned to some section of the subtree, and leaves no node below with a single used slot that could be folded |
| Dispatch.AddressSpaceDispatch.CompactAll | qemu-2.0/exec.c:269-276 | changes the answer of no lookup, and every node that can be folded is |
| Dispatch.AddressSpaceDispatch.PageFind | qemu-2.0/exec.c:278-306 | the loop computes the walk followed by the range check |
| Dispatch.AddressSpaceDispatch.LookupRegion | qemu-2.0/exec.c:308-321 | with and without subpage resolution |
| Dispatch.AddressSpaceDispatch.SectionAdd | qemu-2.0/exec.c:857-874 | appends a section, or fails when the index would not fit below a page |
| Dispatch.AddressSpaceDispatch.RegisterMultipage | qemu-2.0/exec.c:928-938 | exactly the addresses of the pages now resolve to the new section |
| Dispatch.AddressSpaceDispatch.SubpageRegister | qemu-2.0/exec.c:1732-1750 | exactly the table entries from start to end are set |
| Dispatch.AddressSpaceDispatch.NewSubpage | qemu-2.0/exec.c:912-917 | a new container changes no answer |
| Dispatch.AddressSpaceDispatch.EnsureSubpage | qemu-2.0/exec.c:897-920 | finds or makes the container of the page without changing an answer |
| Dispatch.AddressSpaceDispatch.RegisterSubpage | qemu-2.0/exec.c:897-925 | exactly the addresses of the piece now resolve to the new section |
| Dispatch.AddressSpaceDispatch.AddPiece | qemu-2.0/exec.c:956-970 | one pass of the loop in mem_add: the piece is registered and the rest begins at a page boundary |
| Dispatch.AddressSpaceDispatch.AddHead | qemu-2.0/exec.c:947-955 | registers the part of a section before its first page boundary |
| Dispatch.AddressSpaceDispatch.MemAdd | qemu-2.0/exec.c:940-971 | afterwards every address of the section resolves to a piece of it and every other address as before; at most five table entries |
| Dispatch.BuildDispatch | qemu-2.0/exec.c:1801-1835 | for every list of disjoint sections the built tree answers every address like a linear search, and the unassigned region where that finds nothing; building succeeds if the table can hold five entries a section |
| BlockRequests.OverlapsIs | qemu-2.0/block.c:2345-2357 | two requests overlap if and only if they share a byte |
| BlockRequests.ScanRequests | qemu-2.0/block.c:2368-2396 | the loop finds the first tracked request to wait for |
| BlockRequests.PassesIff | qemu-2.0/block.c:2359-2401 | a request gets past its wait if and only if every request it conflicts with is itself waiting |
| BlockRequests.MarkedRegion | qemu-2.0/block.c:2296-2312 | marking widens the request to exactly its padded region, and marking again changes nothing |
| BlockRequests.RangeInside | qemu-2.0/block.c:3192-3195 | every driver operation stays inside the overlap region: the assertion cannot fail |
| BlockRequests.FinalHasValue | qemu-2.0/block.c:3262-3334 | when the transfer starts, every byte of it is given or has been read |
| BlockRequests.WaitInv | qemu-2.0/block.c:2359-2401 | waiting or passing keeps the invariant of all requests |
| BlockRequests.NeverWaitsAgain | qemu-2.0/block.c:3301-3303 | a serialising request that reaches its next stage does not wait: the assertion cannot fail |
| BlockRequests.StepInv | qemu-2.0/block.c:2262-2401 | every step of every request keeps the invariant |
| BlockRequests.RunInv | qemu-2.0/block.c:2262-2401 | so it holds in every state of every run |
| BlockRequests.NeverBothPastWait | qemu-2.0/block.c:2359-2401 | in every run, of two requests that share an address, one of them serialising, one is waiting |
| BlockRequests.PaddingIsCurrent | qemu-2.0/block.c:3262-3334 | a byte that a padded write puts back is the byte on disk at that moment |
| BlockRequests.NoLostUpdate | qemu-2.0/block.c:3178-3224 | in every run a disk byte changes only to the data of a write asked to write it |
| BlockRequests.MoveDoes | qemu-2.0/block.c:3196-3208 | a byte of the transfer: a read takes it from the disk; a write puts there the byte it brought, or in the padding what is there already; no other byte changes |
| BlockRequests.BegunAt | qemu-2.0/block.c:2275-2294 | a tracked request is, unaltered, what it was begun with |
| BlockRequests.Completed | qemu-2.0/block.c:2922-3346 | in every run, a request that completes has done what it was begun for at every address: a write, serialising or not, has put its byte on disk, where it still is unless another request moved it since; a read has a byte that was on disk during the read; a copy-on-read one that is there now |
| BlockRequests.CompletedWrite | qemu-2.0/block.c:3178-3224 | when a serialising write completes its data are on disk |
| BlockRequests.InFlightExact | qemu-2.0/block.c:2262-2312 | serialising_in_flight is the number of tracked serialising requests |
| BlockRequests.NoWaitCycle | qemu-2.0/block.c:2376-2392 | waiting_for has no cycle in any reachable state |
| BlockRequests.DriverMoves | qemu-2.0/block.c:2922-2995 | a request past its wait can always go on at the driver |
| BlockRequests.SomeoneMoves | qemu-2.0/block.c:2359-2401 | no deadlock: as long as requests are tracked one of them can move or wake up |
| BlockIo.BlockDevice.DriverWrite | qemu-2.0/block.c:3196-3222 | the written range holds the data, a growable image grows to its end, nothing else that a guest sees changes |
| BlockIo.BlockDevice.ReadZeroing | qemu-2.0/block.c:2961-2990 | on a growable image that asks for zeroes after its end, sectors there read as zeroes, those before as stored, at any alignment |
| BlockIo.BlockDevice.AlignedPreadv | qemu-2.0/block.c:2922-2995 | returns what a guest sees in the range, for growable and fixed images of any length in sectors |
| BlockIo.BlockDevice.CoDoPreadv | qemu-2.0/block.c:3000-3069 | fails just outside the image; otherwise returns exactly the bytes asked for, for every offset, length and alignment |
| BlockIo.BlockDevice.Padded | qemu-2.0/block.c:3262-3334 | the aligned request has the data in the middle and what is on disk around it, head and tail in one block included |
| BlockIo.BlockDevice.CoDoPwritev | qemu-2.0/block.c:3229-3346 | fails just outside the image and then changes nothing; otherwise changes exactly the bytes asked for, and a growable image grows to the end of the enclosing aligned range |
| BlockIo.PaddedRange | qemu-2.0/block.c:3262-3330 | padding the start and then the end gives the enclosing aligned range |
| BlockIo.BlocksInside | qemu-2.0/block.c:3262-3330 | the blocks read for padding are aligned and inside that range |
| Xbzrle.LebRoundTrip | qemu-2.0/util/cutils.c:483-510 | decoding an encoded 14-bit number gives it back with its length |
| Xbzrle.LebDecodeIs | qemu-2.0/util/cutils.c:496-510 | which bytes are a number of one byte, which one of two, and which neither |
| Xbzrle.RoundTripFrom | qemu-2.0/xbzrle.c:26-173 | from any run boundary on, decoding the rest of the delta completes the page and ends just behind the last changed byte |
| Xbzrle.RoundTrip | qemu-2.0/xbzrle.c:26-173 | for all pages, the delta decoded onto the old page is the new page, and it is empty if and only if they are equal |
| Xbzrle.RoundTripEnd | qemu-2.0/xbzrle.c:126-173 | decoding the delta of two pages returns the place just behind the last byte in which they differ |
| Xbzrle.ZeroByteTest | qemu-2.0/xbzrle.c:99 | the arithmetic test finds a zero byte in a 64-bit word if and only if there is one |
| Xbzrle.WordTest | qemu-2.0/xbzrle.c:96-99 | the test on the xor of two words stops the run if and only if one of their eight bytes is unchanged |
| Xbzrle.SkipEqual | qemu-2.0/xbzrle.c:43-64 | the byte, word, byte loops find the end of the run of equal bytes |
| Xbzrle.SkipDifferent | qemu-2.0/xbzrle.c:85-111 | and of the run of changed bytes, by bytes and then by the word test |
| Xbzrle.EncodeBuffer | qemu-2.0/xbzrle.c:26-124 | the delta of the format; overflow if and only if the delta does not fit, or the pages end in equal bytes and it leaves less than two bytes of the buffer |
| Xbzrle.DecodePair | qemu-2.0/xbzrle.c:132-170 | one pass of the loop takes one pair of runs off the delta |
| Xbzrle.DecodeBuffer | qemu-2.0/xbzrle.c:126-173 | overwrites the page in place with what the format says and returns where the last run ends, or reports the error |
| MigrationScan.BulkBlockDone | qemu-2.0/arch_init.c:408-412 | in the bulk stage a block is left only after its last page |
| MigrationScan.BulkInOrder | qemu-2.0/arch_init.c:408-412 | the bulk stage goes through all pages in order and leaves out none |
| MigrationScan.BulkStep | qemu-2.0/arch_init.c:408-417 | everything after the cursor stays dirty in the bulk stage |
| MigrationScan.AtNext | qemu-2.0/arch_init.c:557-564 | moving on to the next block or around keeps track of which pages are known clean |
| MigrationScan.AtFound | qemu-2.0/arch_init.c:551-566 | a dirty page found before the end of the round is never the case of loss |
| MigrationScan.AtEnd | qemu-2.0/arch_init.c:553-556 | the round ends with no page dirty; a bit is cleared for nothing if and only if the guard held |
| MigrationScan.SentUnguards | qemu-2.0/arch_init.c:631-641 | after a call that sent a page the guard is off |
| MigrationScan.GuardMoved | qemu-2.0/arch_init.c:434-480 | the guard can be read off bitmap and log before the sync: it is the same after it |
| MigrationScan.SyncAgrees | qemu-2.0/arch_init.c:434-467 | syncing by words and by pages leave the pages of the block the same |
| Migration.SentSafe | qemu-2.0/arch_init.c:538-641 | sending keeps every page equal on both sides or marked, but for pages lost before |
| Migration.GuardLoses | qemu-2.0/arch_init.c:551-556 | under the guard a call keeps that if and only if the page under the cursor is already the same or logged again |
| Migration.OnlyLost | qemu-2.0/arch_init.c:864-892 | if all but one page is safe and nothing is left to send, both sides are the same if and only if that page is |
| Migration.DeltaLoads | qemu-2.0/arch_init.c:909-948 | a delta against the page the destination has loads as the new page |
| Migration.ReplayMore | qemu-2.0/arch_init.c:538-641 | the guest's stores in two stretches of time are those of both together |
| Migration.RamMigration.constructor | qemu-2.0/arch_init.c:715-735 | all pages dirty, nothing cached, cursor before the first block |
| Migration.RamMigration.GuestRuns | qemu-2.0/arch_init.c:538-641 | a turn of the guest makes just its stores of that turn, and logs them |
| Migration.RamMigration.Sample | qemu-2.0/arch_init.c:363 | copying a page, during which the guest gets its turn, leaves guest memory to the guest, and the copy is the page unless the guest wrote it meanwhile |
| Migration.RamMigration.CacheInsert | qemu-2.0/page_cache.c:114-180 | the slot of the page holds the page, other slots stay |
| Migration.RamMigration.SendMiss | qemu-2.0/arch_init.c:350-358 | a page that is not cached goes in full and, before the last stage, into the cache |
| Migration.RamMigration.SendOverflow | qemu-2.0/arch_init.c:373-379 | a page whose delta is too long goes in full, and what goes before the last stage is just what the cache then holds |
| Migration.RamMigration.SendXbzrle | qemu-2.0/arch_init.c:343-395 | miss, unmodified, delta or overflow: the destination then has a page the source had, and before the last stage the cache holds just that page; if nothing is sent nothing changes, and nothing is sent for a page that is as cached unless the guest runs meanwhile |
| Migration.RamMigration.SendPage | qemu-2.0/arch_init.c:590-627 | zero page, delta or full page: the destination then has the guest's page, unless the guest wrote it meanwhile, and the cache keeps agreeing with the destination |
| Migration.RamMigration.FindNextBit | qemu-2.0/util/bitops.c:21-80 | the word loops find the first set bit at or after an index, or the size |
| Migration.RamMigration.SkipFour | qemu-2.0/util/bitops.c:45-60 | four words at a time only words without a bit are passed over |
| Migration.RamMigration.FoundFirst | qemu-2.0/util/bitops.c:73-80 | in the last word bits beyond the size are not counted |
| Migration.RamMigration.FindAndReset | qemu-2.0/arch_init.c:397-419 | clears the bit of the page it returns and keeps the count of dirty pages exact |
| Migration.RamMigration.ScanTurn | qemu-2.0/arch_init.c:550-636 | one turn of the loop: next block, page found, or end of the round |
| Migration.RamMigration.Scan | qemu-2.0/arch_init.c:538-637 | the loop ends, and its bookkeeping is as ram_save_block promises |
| Migration.RamMigration.RamSaveBlock | qemu-2.0/arch_init.c:538-641 | outside the guard a bit goes only with a page that arrives or is found unmodified; 0 is returned only when no page is dirty; the bulk stage is in order; under the guard one bit goes and nothing is sent, and just then the page under the cursor is noted as lost; guest memory changes by the guest's stores alone |
| Migration.RamMigration.SetDirty | qemu-2.0/arch_init.c:421-432 | sets the bit and counts it once |
| Migration.RamMigration.SyncWord | qemu-2.0/arch_init.c:446-454 | one word moves from the log to the bitmap, new bits are counted |
| Migration.RamMigration.SyncWords | qemu-2.0/arch_init.c:440-455 | the words of an aligned block move |
| Migration.RamMigration.SyncPages | qemu-2.0/arch_init.c:456-466 | the pages of any block move |
| Migration.RamMigration.SyncRange | qemu-2.0/arch_init.c:434-467 | by either way no page of the block is left in the log and no mark is lost or made up; by words the last word is moved whole, and otherwise nothing outside the block is moved |
| Migration.RamMigration.Sync | qemu-2.0/arch_init.c:472-493 | the same for all blocks |
| Migration.RamMigration.RamSaveComplete | qemu-2.0/arch_init.c:864-892 | with the guest stopped all of memory ends up on the destination, but for pages lost before and, if and only if the guard holds, the page under the cursor; then the call sends nothing, and memory is the same just if the destination has that page |
| Migration.RamMigration.SaveRest | qemu-2.0/arch_init.c:874-883 | the loop sends everything, or under the guard nothing |
| Migration.RamMigration.RunSave | qemu-2.0/arch_init.c:538-641 | in a run the guard holds at one call at most, and just that call loses the page under the cursor |
| Migration.RamMigration.Migrate | qemu-2.0/arch_init.c:795-892 | for every guest and every schedule of its turns, syncs and sends: guest memory is what the guest stored; at most one call of ram_save_block is under the guard, in a run that began in the bulk stage; all of memory then is on the destination but for the page that call lost, the last of the last block, and both sides are the same if and only if there was no such call or the destination has that page |
| Migration.TwoPagesSent | qemu-2.0/arch_init.c:538-641 | the bulk stage of a guest of two pages ends with the cursor on the second |
| Migration.LostPage | qemu-2.0/arch_init.c:408-409 | if the guest then writes the second page again, a completed migration leaves the old page on the destination |
| Srcu.InitInv | kvm-kmod-3.16/srcu.c:45-54 | the invariant holds with all counters zero |
| Srcu.KeepsCounts | kvm-kmod-3.16/srcu.c:45-54 | the counters of a rank, summed over CPUs, count the readers inside on it, whichever CPU they leave on |
| Srcu.ReaderKeepsDrain | kvm-kmod-3.16/srcu.c:98-109 | no reader step undoes what the scanning updater knows |
| Srcu.ScanZero | kvm-kmod-3.16/srcu.c:45-54 | a scan that adds up to zero, CPU by CPU while readers leave, saw every reader of its rank gone |
| Srcu.HolderDrain | kvm-kmod-3.16/srcu.c:76-111 | each step of the updater that holds the mutex keeps what it knows about the old rank |
| Srcu.OtherQuiet | kvm-kmod-3.16/srcu.c:95-96 | when the counter is flipped the rank that comes into use has no readers |
| Srcu.FlipKeepsWait | kvm-kmod-3.16/srcu.c:95-96 | an updater that waits keeps waiting for its readers across the flips of others |
| Srcu.KeepsWait | kvm-kmod-3.16/srcu.c:59-142 | every step keeps, for every updater and each of its readers, where the reader can still be |
| Srcu.StepInv | kvm-kmod-3.16/srcu.c:59-142 | every step keeps the invariant |
| Srcu.RunInv | kvm-kmod-3.16/srcu.c:59-142 | so it holds in every state of every run |
| Srcu.GracePeriod | kvm-kmod-3.16/srcu.c:59-142 | in every run, a reader inside when an updater calls has left when the updater returns, on the normal path and on the early exit |
| Srcu.HolderReturns | kvm-kmod-3.16/srcu.c:76-142 | once no reader is about to enter and those on the old rank have left, the holder of the mutex returns by its own steps |
| Srcu.CallerReturns | kvm-kmod-3.16/srcu.c:59-142 | so does any caller once the mutex is free |
| Srcu.EarlyReturn | kvm-kmod-3.16/srcu.c:65-79 | a caller returns at once if and only if the counter was advanced twice since the call |
| GuestBlocks.MapsOnce | qemu-2.0/memory_mapping.c:196-250 | an address is in one block at most |
| GuestBlocks.GuestBlockList.RegionAdd | qemu-2.0/memory_mapping.c:196-250 | the blocks stay ascending and map exactly what they mapped and the new RAM section; the list grows unless the section continues the last block in guest and host, so no two neighbours could be one |
| ElfDump.ImagePart | qemu-2.0/dump.c:667-694 | each block's part of the dump lies where the parts before it end |
| ElfDump.RangeFound | qemu-2.0/dump.c:487-499 | the offset and size computed for a mapping are those of the guest bytes in the dump |
| ElfDump.OutOfIs | qemu-2.0/dump.c:465-470 | a block is passed over if and only if no address of it is in the range |
| ElfDump.ElfDump.GetOffsetRange | qemu-2.0/dump.c:444-503 | -1 if and only if the address is not dumped; otherwise the bytes in the dump are the guest's, clamped only at the end of the block |
| ElfDump.MemoryBegins | qemu-2.0/dump.c:1674-1693 | where memory begins in the file, in figures, for both classes with and without a section header |
| ElfDump.LoadReadsBack | qemu-2.0/dump.c:215-267 | a program header of either class and byte order is a PT_LOAD, and reads back if and only if every field fits the class and no offset looks like -1 |
| ElfDump.LoadsMore | qemu-2.0/dump.c:518-533 | a program header goes behind the earlier ones and leaves them alone |
| ElfDump.ElfDump.WriteElfLoads | qemu-2.0/dump.c:505-541 | one true program header for each mapping, up to the maximum, encoded behind what was written before |
| ElfDump.ElfDump.WriteMemory | qemu-2.0/dump.c:418-441 | appends the bytes of the block, page by page and the rest |
| ElfDump.ElfDump.GetStartBlock | qemu-2.0/dump.c:1507-1533 | the first block in the range; failure if and only if there is a filter and no block is in it |
| ElfDump.ElfDump.GetNextBlock | qemu-2.0/dump.c:639-664 | the next block in the range; those passed over have nothing to dump |
| ElfDump.ElfDump.DumpIterate | qemu-2.0/dump.c:667-694 | appends the chosen part of every block, in order |
| ElfDump.ElfDump.CreateVmcore | qemu-2.0/dump.c:544-711 | in the finished file headers and notes are where PT_NOTE says, followed by just the chosen memory; every program header is as long as its block allows and points at the guest's bytes, and a reader of the file gets it if and only if its class has room; with and without a filter, for both header layouts |
| Vmcore.WriteHolds | qemu-2.0/dump.c:755-774 | a record puts its bytes at its offset and changes nothing else |
| Numbers.BitIs | qemu-2.0/dump.c:1063-1069 | setting, clearing and testing bit k of a byte is what the C shifts of 1 by k do |
| Numbers.NumCounts | qemu-2.0/dump.c:39-70 | the number in a byte is the usual one |
| Numbers.PutAt | qemu-2.0/dump.c:39-70 | little endian begins with the low byte, big endian ends with it |
| Numbers.GetPut | qemu-2.0/dump.c:39-70 | numbers in either byte order read back |
| Vmcore.GetPutDesc | qemu-2.0/include/sysemu/dump.h:154-159 | so do page descriptors |
| Vmcore.PageReads | qemu-2.0/dump.c:1412-1417 | a descriptor and its data in the file make the page readable |
| KdumpPages.PagesAscend | qemu-2.0/dump.c:1079-1123 | the iteration goes through page frames in ascending order: the assertion in set_dump_bitmap cannot fail |
| KdumpPages.ListedIff | qemu-2.0/dump.c:1079-1123 | and through just those in guest blocks |
| KdumpPages.GetNextPage | qemu-2.0/dump.c:1079-1123 | returns the next page of that list with its host address, or says that there is none |
| KdumpBitmap.Flushed | qemu-2.0/dump.c:1044-1064 | writing a window to both bitmaps keeps all windows before it right in both |
| KdumpBitmap.FlushedInside | qemu-2.0/dump.c:1044-1064 | and nothing outside the two bitmaps is written |
| KdumpBitmap.BufPutOk | qemu-2.0/dump.c:1066-1073 | setting or clearing a bit in the buffer changes that page frame's bit only |
| KdumpBitmap.SyncedPut | qemu-2.0/dump.c:1066-1073 | and none of the bits already in the file |
| Kdump.LenIsWindows | qemu-2.0/dump.c:1624-1625 | the length of a bitmap is just the windows up to that of the last page |
| Kdump.PageBelowMax | qemu-2.0/dump.c:1535-1541 | max_mapnr is one more than the last page frame |
| Kdump.KdumpWriter.CreateHeader | qemu-2.0/dump.c:900-1004 | headers and notes end before the bitmaps, and descriptors begin where the second bitmap ends |
| Kdump.KdumpWriter.SetDumpBitmap | qemu-2.0/dump.c:1022-1075 | file and buffer together hold the bits set so far, whatever gap lies between two page frames; nothing outside the bitmaps changes |
| Kdump.KdumpWriter.WriteDumpBitmap | qemu-2.0/dump.c:1125-1177 | in both bitmaps just the bits of the guest's pages are set, and they are counted; nothing else in the file changes |
| Kdump.CacheFlush | qemu-2.0/dump.c:1202-1212 | flushing completes what the file has of the written bytes |
| Kdump.DataCache.WriteCache | qemu-2.0/dump.c:1189-1219 | the buffered writer refines plain append: what is in file and buffer is all that was written, one after the other |
| Kdump.KdumpWriter.Pack | qemu-2.0/dump.c:1333-1415 | zero page, compressed if that makes it smaller, or plain: the descriptor finds data that expand to the page, by the method its flags name |
| Kdump.KdumpWriter.Append | qemu-2.0/dump.c:1333-1421 | the data and descriptor caches do not disturb each other or what lies before them |
| Kdump.KdumpWriter.WriteDumpPages | qemu-2.0/dump.c:1274-1447 | the k-th descriptor of the file leads to the k-th page's bytes, and nothing before the descriptors changes |
| Kdump.RankIs | qemu-2.0/dump.c:1125-1177 | the number of bits set before a page frame is its place among the descriptors |
| Kdump.FrameReads | qemu-2.0/dump.c:1449-1505 | a reader that goes by bitmap and rank gets the guest's page, or nothing where the guest has none |
| Kdump.KdumpWriter.CreateKdump | qemu-2.0/dump.c:1449-1505 | in the finished file header, sub-header and notes are whole, both bitmaps have just the bits of the guest's pages, the descriptors follow them, and every page frame reads back, byte by byte, as the guest's memory |
| Tlb.RegionCatches | qemu-2.0/cputlb.c:90 | an address in a large page of the region hits the region |
| Tlb.RegionGrows | qemu-2.0/cputlb.c:212-220 | widening keeps every page in the region |
| Tlb.Widen | qemu-2.0/cputlb.c:215-218 | the loop ends with the largest mask of high bits under which the addresses agree |
| Tlb.RegionWidened | qemu-2.0/cputlb.c:214-220 | the widened region holds the new page and all old ones |
| Tlb.LeastGrows | qemu-2.0/cputlb.c:211-220 | widening by that mask keeps the region the smallest aligned block around its pages and the new one |
| Tlb.CaughtIff | qemu-2.0/cputlb.c:90 | an address hits the region if and only if every aligned block that holds all the large pages holds the address |
| Tlb.RememberedSince | qemu-2.0/cputlb.c:49-110 | the large pages the region stands for are those installed since the last full flush, be it asked for or forced |
| Tlb.InstalledIs | qemu-2.0/cputlb.c:249-296 | the tags of a new entry are for its page and answer for just the rights given, whatever flags they carry |
| Tlb.InstalledNotes | qemu-2.0/cputlb.c:278-293 | which tags of a new entry carry TLB_MMIO and TLB_NOTDIRTY, exactly: loads and fetches of devices, watched pages, stores to ROM, stores to clean RAM; so stores go straight to memory just for RAM that is dirty and not watched |
| Tlb.Covered | qemu-2.0/cputlb.c:90-107 | an entry from a page that covers an address has its tag in its slot, or the region catches it |
| Tlb.HitIsPage | qemu-2.0/cputlb.c:68-78 | whatever the TLB answers is for the page the entry was installed from |
| Tlb.CpuTlb.Flush | qemu-2.0/cputlb.c:49-66 | no entry is left, the region is empty and no large page is counted any more |
| Tlb.CpuTlb.FlushEntry | qemu-2.0/cputlb.c:68-78 | an entry with a tag for the page goes, and no other |
| Tlb.CpuTlb.FlushPage | qemu-2.0/cputlb.c:80-110 | in no mode is an entry left that was installed from a page, of whatever size, covering the address, and no access to it is answered; everything is flushed if and only if the address is between the large pages, otherwise only entries tagged with the page, and the region stays |
| Tlb.CpuTlb.AddLargePage | qemu-2.0/cputlb.c:200-221 | the region comes to hold the page, keeps those it held, and is the smallest aligned block that does |
| Tlb.CpuTlb.SetPage | qemu-2.0/cputlb.c:224-297 | accesses in the page are answered just for the rights given, with just the flags due; a large page is one more that the region holds; other entries stay |
| Tlb.InHostIs | qemu-2.0/cputlb.c:139-140 | that test takes in just the bytes from start that number less than length |
| Tlb.CpuTlb.ResetDirty | qemu-2.0/cputlb.c:133-144 | the entry no longer writes straight to memory if it did and its host page is in the range, by an unsigned test that wraps around; otherwise nothing changes, and never which accesses are answered |
| Tlb.CpuTlb.ResetDirtyAll | qemu-2.0/cputlb.c:157-173 | the same for every entry in every mode |
| Tlb.CpuTlb.SetDirtyEntry | qemu-2.0/cputlb.c:177-182 | the not-dirty flag goes from the entry of the page, and nothing else changes |
| Tlb.CpuTlb.SetDirty | qemu-2.0/cputlb.c:186-196 | in all modes, in the slot of the page |
| Tlb.Perform | qemu-2.0/cputlb.c:49-297 | each operation keeps the account of the large pages remembered and of the page last installed in each slot |
| Tlb.History | qemu-2.0/cputlb.c:49-297 | after any history the region is the smallest aligned block around the large pages installed since the last full flush, and a flush of an address leaves no entry in a slot whose last installed page covers it |
| EventLoop.NextInTail | qemu-2.0/async.c:68-71 | the next pointer of an element stays right while elements are added in front |
| EventLoop.BhStepTrans | qemu-2.0/async.c:60-103 | callbacks compose: while a walk is on nothing goes away, and what is scheduled stays so until served |
| EventLoop.RunsMore | qemu-2.0/async.c:72-83 | of what a callback runs, however deep, nothing counts for the walk that called it |
| EventLoop.WalkStep | qemu-2.0/async.c:68-84 | one turn of the walk: all that waited at the start and was passed is served, and what is scheduled is yet to be passed or was scheduled meanwhile |
| EventLoop.WalkEnd | qemu-2.0/async.c:86-103 | at the end all that waited at the start is served, and what is scheduled was scheduled meanwhile |
| EventLoop.AioContext.BhNew | qemu-2.0/async.c:43-57 | a new element in front |
| EventLoop.AioContext.BhSchedule | qemu-2.0/async.c:106-129 | scheduled, with the idle flag of the first of two schedulings |
| EventLoop.AioContext.BhCancel | qemu-2.0/async.c:134-137 | no longer scheduled |
| EventLoop.AioContext.BhDelete | qemu-2.0/async.c:142-146 | marked, not freed |
| EventLoop.AioContext.Sweep | qemu-2.0/async.c:88-101 | takes off the list exactly the deleted ones, in order |
| EventLoop.AioContext.Operations | qemu-2.0/async.c:81 | whatever a callback does, with polls to any depth, the lists keep their invariant |
| EventLoop.AioContext.Callback | qemu-2.0/async.c:81 | the call of a bottom half is what is noted as its run |
| EventLoop.AioContext.RunBh | qemu-2.0/async.c:72-83 | calls one bottom half, tells whether it was idle, and keeps the walk's place valid |
| EventLoop.AioContext.BhTurn | qemu-2.0/async.c:68-84 | one turn of the loop, with whatever the callback does |
| EventLoop.AioContext.BhPoll | qemu-2.0/async.c:60-103 | never follows a freed element, and every bottom half scheduled at the start has been run, cancelled or deleted at the return, at any depth; any still scheduled then was scheduled meanwhile; the result is true if and only if this walk itself ran one that was not idle |
| EventLoop.AioContext.EndWalk | qemu-2.0/async.c:86-103 | the last walk to end takes the deleted bottom halves off the list; all that waited at the start of this one is served |
| EventLoop.HandlerStepTrans | qemu-2.0/aio-posix.c:122-173 | the same composition for handlers: events stay until served, what a wait finds is served, and none is changed without notice |
| EventLoop.CallsMore | qemu-2.0/aio-posix.c:138-156 | of the calls made inside a callback, however deep, none counts as progress of the walk that called it |
| EventLoop.PollAgain | qemu-2.0/aio-posix.c:225-239 | after the wait and the second walk all that the wait found is served too |
| EventLoop.VisitRemove | qemu-2.0/aio-posix.c:160-165 | taking a deleted handler off when no walk is on keeps the rest of the walk valid |
| EventLoop.AioContext.FindHandler | qemu-2.0/aio-posix.c:32-43 | the handler of a descriptor that is not deleted, if there is one |
| EventLoop.AioContext.SetFdHandler | qemu-2.0/aio-posix.c:45-93 | at most one live handler a descriptor, set as asked with just the events it needs, or gone; others untouched; freed at once only if no walk is on |
| EventLoop.AioContext.HandlerCallback | qemu-2.0/aio-posix.c:141-155 | the call of io_read or io_write is what is noted |
| EventLoop.AioContext.HandOver | qemu-2.0/aio-posix.c:138-156 | which callbacks are called: io_read or io_write by the events taken, and if both are due io_write too unless the handler was changed or called meanwhile; none without an event; there is progress if and only if one of these calls was not for the notifier |
| EventLoop.AioContext.CallRead | qemu-2.0/aio-posix.c:138-147 | io_read is progress unless the handler is the notifier when it returns |
| EventLoop.AioContext.Visit | qemu-2.0/aio-posix.c:133-165 | one turn of the walk makes just these calls, never follows a freed handler, and takes a deleted one off the list when no other walk is on |
| EventLoop.AioContext.Dispatch | qemu-2.0/aio-posix.c:122-173 | every handler with an event at the start has been called, changed or deleted at the return; the result is true if and only if a timer was due or this walk itself called a handler other than the notifier |
| EventLoop.AioContext.PollAll | qemu-2.0/aio-posix.c:205-223 | whether something is found for a handler that is not deleted and waits for events |
| EventLoop.AioContext.TakeEvents | qemu-2.0/aio-posix.c:225-234 | each such handler gets what was found for it, the others keep what they have |
| EventLoop.AioContext.Wait | qemu-2.0/aio-posix.c:205-234 | if anything is found for any polled handler, each of them gets just what is found for it, and otherwise nothing changes |
| EventLoop.AioContext.AioPoll | qemu-2.0/aio-posix.c:175-239 | both at once: no event that was pending is overwritten by a nested poll before it was handled, and every event the wait finds is handled before the return; it waits unless a bottom half made progress, or a handler did and it need not block; the result is true if and only if one of the three walks made progress |
| RamList.InGap | qemu-2.0/exec.c:1153-1167 | a block put into a gap is apart from every block and inside the address space |
| RamList.BestNext | qemu-2.0/exec.c:1163-1166 | the best gap so far stays the best |
| RamList.TestIff | qemu-2.0/exec.c:749-754 | the unsigned wrap-around test is containment |
| RamList.OnlyOne | qemu-2.0/exec.c:742-763 | at most one block contains an address |
| RamList.RamBlockList.NextOffset | qemu-2.0/exec.c:1155-1162 | the inner loop finds where the next block begins |
| RamList.RamBlockList.FindRamOffset | qemu-2.0/exec.c:1143-1176 | the smallest gap behind a block that is large enough, the first of these in list order; failure if and only if there is none |
| RamList.RamBlockList.Insert | qemu-2.0/exec.c:1299-1310 | the list stays ordered from the longest block to the shortest |
| RamList.RamBlockList.Alloc | qemu-2.0/exec.c:1250-1316 | adds one page-aligned block in the best gap, disjoint from all; failure if and only if there is no gap or the size is zero |
| RamList.RamBlockList.Free | qemu-2.0/exec.c:1362-1391 | removes the block that begins there, if any |
| RamList.RamBlockList.Lookup | qemu-2.0/exec.c:742-763 | the unique block that contains the address, cached or not; failure if and only if there is none |
| Gdb.FromHexIs | qemu-2.0/gdbstub.c:397-407 | capital letters are the same digits, and what is no digit is 0 |
| Gdb.UnhexHex | qemu-2.0/gdbstub.c:397-443 | hextomem undoes memtohex |
| Gdb.MemToHex | qemu-2.0/gdbstub.c:418-430 | writes the hex text and a NUL and nothing beyond |
| Gdb.HexToMem | qemu-2.0/gdbstub.c:432-440 | reads it, and writes nothing beyond |
| Gdb.EscapeClean | qemu-2.0/gdbstub.c:486-504 | escaped bytes contain no packet delimiter and are at most twice as long |
| Gdb.EscapeRoundTrip | qemu-2.0/gdbstub.c:486-504 | and unescape to the original |
| Gdb.EscapePlain | qemu-2.0/gdbstub.c:486-504 | text without the four special characters stays as it is |
| Gdb.EscapeSpecial | qemu-2.0/gdbstub.c:486-504 | those four go out as the protocol says |
| Gdb.MemToX | qemu-2.0/gdbstub.c:486-504 | the loop writes the escaped bytes |
| Gdb.SumNext | qemu-2.0/gdbstub.c:453-456 | modulo 256 the checksum is the sum of the bytes, whatever their signs as chars |
| Gdb.FrameOfOk | qemu-2.0/gdbstub.c:448-461 | OK goes out as $OK#9a |
| Gdb.FrameStep | qemu-2.0/gdbstub.c:1361-1400 | of a frame that comes in byte by byte only the last byte has an effect: delivery if the checksum is that of the text, refusal if not |
| Gdb.FrameGoesOn | qemu-2.0/gdbstub.c:1360-1402 | conversely, whatever comes in, what is delivered is the text between a dollar sign and a hash sign that were read in a row with two digits that are its checksum |
| Gdb.GdbState.PutPacketBinary | qemu-2.0/gdbstub.c:443-473 | sends and keeps the frame with its checksum, chars being signed |
| Gdb.GdbState.ReadByte | qemu-2.0/gdbstub.c:1329-1404 | resend, abandon, stop the machine or go through the states; lines with a wrong checksum are refused |
| Gdb.GdbState.Interpret | qemu-2.0/gdbstub.c:1360-1402 | the switch over the receiving states |
| Gdb.GdbState.ReceiveFramed | qemu-2.0/gdbstub.c:1329-1404 | an idle receiver fed any text of at most 4095 bytes without '#' and any checksum acknowledges and handles just the text if the checksum is right, and only asks for it again if not |
| Gdb.GdbState.ReceiveFrame | qemu-2.0/gdbstub.c:1329-1404 | an idle receiver fed the frame of any payload of at most 4095 bytes without '#' handles just that payload |
| Gdb.GdbState.ReceiveAltered | qemu-2.0/gdbstub.c:1329-1404 | a frame with one byte of the payload altered is refused |
| Gdb.GdbState.ReceiveAll | qemu-2.0/gdbstub.c:1609-1616 | on every stream of bytes, with the machine started at any time, the buffer index stays in bounds, no longer line is ever handled, and every line handled was framed in the stream with its own checksum |
| Div64.ShiftedDivisor | kvm-kmod-3.16/external-module-compat.c:48-53 | the shifted divisor fits 32 bits with the highest one set |
| Div64.Dropped | kvm-kmod-3.16/external-module-compat.c:49-54 | the bits the shift drops are few enough for every 64-bit dividend |
| Div64.QuotientOrOneMore | kvm-kmod-3.16/external-module-compat.c:44-60 | the quotient or one more; exact for 32-bit divisors; exact if and only if the dividend is below the next multiple of the divisor without its dropped bits |
| Div64.Tight | kvm-kmod-3.16/external-module-compat.c:44-60 | 2^33 divided by 2^32 + 1 returns 2 |

## Left out

- Dispatch: freeing the old map and reference counts of memory regions: lifetimes do not bear on what a lookup answers.
- Dispatch: `address_space_translate` and I/O above the lookup, which begin where the answer proved here ends.
- Dispatch: node pointers are indices and `lp` is passed and returned as a value; growing the node array in place is not modelled, only that it never happens during the recursion.
- BlockRequests: BDRV_REQ_ZERO_WRITE, flushes, discard, throttling and write notifiers; a zero write zeroes the whole padded range, so the claims on padding are for data writes.
- BlockRequests: I/O errors of the driver, and the 32-bit width of overlap_bytes.
- BlockIo: read-only and missing media, and copy-on-read, which is in BlockRequests.
- Xbzrle: a 32-bit long; words are of eight bytes.
- Migration: the rate limit and throttling, the asynchronous flush of the stream, a change of the block list between rounds, and resizing the page cache.
- Migration.RamMigration.CacheInsert: a failed allocation for an empty slot; a zero page is then just not cached, and for another page before the last stage the code goes on to send from a null pointer.
- Migration.RamMigration.SendPage: the RDMA hook ram_control_save_page, which may take the page over.
- Migration.RamMigration.Sync: is one step against the guest, and the log stands for both the accelerator's log and QEMU's.
- Migration: block identifiers and offsets on the wire; a message names its page by number.
- Srcu: weak memory order; steps are sequentially consistent and sync_func waits for readers between fetch and increment, as its comment says. Expedited sync_func and CPU hotplug.
- ElfDump: the bytes of the ELF header, PT_NOTE, the section header and the notes, which are parameters of the right length; for the section header the code writes the bytes of a pointer in place of the header, so there is nothing to read back.
- ElfDump: paging mappings and memory_mapping_filter, for which any list of mappings stands; write errors.
- ElfDump.ElfDump.CreateVmcore: without a filter it needs a block; the code takes the first one unseen.
- Kdump: compression libraries (any pair of functions that undo each other), write errors, and 32-bit truncation of block counts beyond 16 TB of bitmaps.
- Kdump.KdumpWriter.CreateHeader: what is in the headers; their bytes are parameters.
- Tlb: the translation-block cache; which memory backs a page is a parameter.
- Tlb.CpuTlb.SetPage: the iotlb half of an entry; the host address is kept where the code keeps its difference to the tag.
- EventLoop: threads, memory barriers and the lock around bh lists.
- EventLoop.AioContext.Dispatch: which timers are due is left open, and so is what they do beyond the operations of any callback.
- EventLoop.AioContext.AioPoll: how long the wait takes; what it finds is a parameter.
- EventLoop.AioContext.Operations: the nesting depth is a parameter over which everything is stated; operations on bottom halves already deleted are callers' errors and left out.
- RamList: host memory, file backing and migration identifiers of blocks; the dirty bitmaps.
- Gdb: commands themselves.
- Gdb.GdbState.PutPacketBinary: the user-mode variant that waits for an acknowledgement while sending.
- Gdb.GdbState.HandlePacket: the command handler may reply and let the machine run, nothing more is known of it.
- Div64: the 64-bit build, where the function is not compiled.

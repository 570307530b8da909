# Verified model of the Gate 4 kernel substrate

This project models, in Dafny 4.11, the parts of the Gate 4 harness that keep state: the virtual
memory stack, the cooperative scheduler with its events and handles, the UTF-8 to UTF-16 transcoder,
the malloc registry and the calendar arithmetic. `dafny verify dfyconfig.toml` checks all of it.

* **Page tables** (`Words`, `PageFormat`, `PageTree`, `Paging`). Physical memory is a heap of
  512-entry tables; the allocator answers as it likes but with fresh aligned pages below 2^52. The
  four-level tables refine a finite map from pages to entries laid over the firmware translation
  (4-level paging, section 4.5 of the Intel SDM, volume 3A). What is assumed of the pool is that no
  free table page is itself a firmware table or is entered as one by a walk from the firmware root;
  the firmware may map pool pages, to themselves or elsewhere, by entries of any size. Data pages
  come from the same pool, so a frame that VirtualFree returns may become a table page and back.
* **Arena and VirtualAlloc** (`Packing`, `ArenaBooks`, `Arena`, `ArenaCheck`, `Coherence`,
  `VirtualMemory`). Commitment table, page tables and outstanding data pages are three views of one
  thing and agree after every call, failed ones included; `VirtualMemory.Launch` goes from an empty
  machine through any run of calls to what an address then translates to.
* **Accounting** (`PhysicalLedger`, `Snapshot`). The ledger of physical allocations, the check that
  recomputes it, and the snapshots put together from ledger, arena and classification.
* **Scheduler** (`Handles`, `SchedState`, `SchedSteps`, `SchedWaits`, `Scheduler`, `EventApi`,
  `SchedulerRuns`, `EventRuns`). One state with an invariant; the methods of `Scheduler.Kernel` run the program's
  loops and state the exact new state, `SchedulerRuns.Perform` covers every sequence of calls, and
  `EventRuns` states what callers see of short runs.
  Fields listed under "history" in `SchedState.State` are not in the program. They count switches,
  signals and satisfied waits and remember what each wait was registered with and how it ended, so
  that properties of whole runs can be read off one state. The ghost counters `refused` of the paging
  and memory contexts count allocator refusals, and `answers` lists what the allocator answered, so that
  failures can name them.
* **Transcoder** (`Utf`, `Multibyte`). UTF-8 by the grammar of section 4 of RFC 3629, UTF-16 by
  sections 2.1 and 2.2 of RFC 2781, and the two passes over one byte memory that holds source and
  destination.
* **Malloc registry** (`MallocRegistry`) over a pool that may answer anything.
* **Calendar** (`Calendar`).

Callbacks, clocks, allocators, canary checks and other outside answers are parameters or arbitrary
choices, so every statement holds for all of them.

## Findings

Where the code does not give a property on all inputs, the model keeps the code and states the
exact condition.

* `Paging.SlotCheckIsExact`, `Paging.SlotCheckCanWrap`: gxos_vm_paging_create compares nine-bit
  indices, so an arena longer than 512 GiB can pass and reach a second root slot.
* `PageFormat.MadeAddress`: a frame at or above 2^52 is stored cut off.
* `Paging.ArenaPageIsExact`, `Paging.ArenaPageWraps`: the page test is exact for every page iff the
  arena ends at or after 0x1000; otherwise its subtraction wraps and page 0x1000 is accepted.
* `Arena.VmArena.ReserveAny`, `Arena.OverrunIsExact`, `Arena.FullArenaOverflows`: when nothing fits, a
  search that runs past the last address answers OVERFLOW instead of OUTSIDE_ARENA, which VirtualAlloc
  reports as a bad argument instead of lack of capacity. It can happen in exactly the arenas that
  `Arena.MeetsLastGranule` describes.
* `VirtualMemory.Context.VirtualAlloc`: in an arena that starts at 0, reserve and commit together are
  refused as a bad argument exactly when the search overflows or finds base 0
  (`VirtualMemory.ZeroFits`), since the commit takes base 0 for no address. The first request of all
  meets it (`VirtualMemory.ZeroFitsAtFirst`, `VirtualMemory.ZeroBaseRefuses`). A reservation alone does
  succeed at 0, and can then never be freed (`VirtualMemory.AllocThenFree`).
* `Scheduler.Kernel.Terminate`, `SchedulerRuns.TerminateCanStrand`: the thread is marked TERMINATED
  before a successor is looked for. The scheduler stays sound exactly when somebody else is runnable
  and the thread has no wait record; a reachable state shows it fail.
* `Scheduler.Kernel.Discard`, `SchedulerRuns.DiscardCanStrand`: the checks let the boot thread and
  threads with an unfinished wait through; the invariant survives exactly for workers without one; a
  reachable state shows it fail.
* `Scheduler.Kernel.PrepareWait`, `Scheduler.ClosedHandle`, `SchedulerRuns.ClosedHandleWaits`: a wait
  through a handle that opens no event is satisfied iff the handle still names a live signaled event,
  since the fallback for notifications resolves events too; a reachable state shows it for a closed
  handle. The event interface checks the handle first.
* `MallocRegistry.CheckIsNotInductive`: registry_valid is not preserved by itself; it needs live
  sequence numbers below the next one.
* `MallocRegistry.Registry.AddProtected`, `MallocRegistry.ProtectedCanOverlap`: a range added after an
  allocation is not compared with it; the two stay apart iff the new range is clear of every live
  block, and a reachable registry shows them overlap.
* `MallocRegistry.Registry.Malloc`, `MallocRegistry.LiveIsGivenBack`: a pool that answers the pointer of
  a live block gets that block back, while the registry keeps it live. It happens exactly when all
  checks before the answer pass and the answer is the pointer of a live block.

## Model

| member | source | states |
|---|---|---|
| `PageFormat.DecodeEntry` | src/Gate4Harness/vm_substrate.c:232-236 | fields of a page-table word; the address field is page aligned and below 2^52 |
| `PageFormat.EntryBits` | src/Gate4Harness/vm_substrate.c:232-236 | bit 0 is present, bit 1 writable, bit 7 large, bits 12 to 51 the frame, bit 63 no-execute |
| `PageFormat.EntryRoundTrip` | src/Gate4Harness/vm_substrate.c:232-236 | decoding a 64-bit entry loses nothing: encoding the fields gives the word back |
| `PageFormat.ZeroIsAbsent` | src/Gate4Harness/vm_substrate.c:744-751 | the zero word that unmap_page writes is an absent entry with no flags |
| `PageFormat.MadeFlags` | src/Gate4Harness/vm_substrate.c:649-654 | an entry built by map_page is present, writable and no-execute as asked, and never a large page; a frame at or above 2^63 also sets no-execute |
| `PageFormat.MadeAddress` | src/Gate4Harness/vm_substrate.c:232-236 | the stored frame is the requested one exactly when it lies below 2^52 |
| `PageFormat.PathDeterminesPage` | src/Gate4Harness/vm_substrate.c:204-231 | two canonical addresses share a page exactly when their four table indices agree |
| `PageFormat.SamePageSamePath` | src/Gate4Harness/vm_substrate.c:204-231 | addresses of one page are canonical together and take the same path |
| `PageFormat.PathDigits` | src/Gate4Harness/vm_substrate.c:204-231 | a canonical page address is its four table indices times 512 GiB, 1 GiB, 2 MiB and 4 KiB, with the sign of bit 47 |
| `PageFormat.CanonicalHalves` | src/Gate4Harness/vm_substrate.c:204-210 | canonical addresses are those below 2^47 and those from 2^64 - 2^47 on |
| `PageFormat.HugePage` | src/Gate4Harness/vm_substrate.c:335-344 | a walk that ends at a present 1 GiB entry answers its frame rounded down to 1 GiB plus the offset of 30 bits, for every address on it |
| `PageFormat.LargePageAnswer` | src/Gate4Harness/vm_substrate.c:348-361 | a walk that ends at a present 2 MiB entry answers its frame rounded down to 2 MiB plus the offset of 21 bits, for every address on it |
| `PageFormat.SmallPage` | src/Gate4Harness/vm_substrate.c:362-375 | a walk that ends at a present 4 KiB entry answers its frame plus the offset of 12 bits |
| `PageTree.OutsideSlot` | src/Gate4Harness/vm_substrate.c:301-376 | outside the arena slot a walk of the private root never leaves the firmware tables and gives the firmware answer |
| `PageTree.InsideSlot` | src/Gate4Harness/vm_substrate.c:301-376 | inside the slot a walk faults as not present or reads the one page table it reaches |
| `PageTree.ReachedOnce` | src/Gate4Harness/vm_substrate.c:562-609 | no page table is reached by two different paths |
| `PageTree.StoreLeaf` | src/Gate4Harness/vm_substrate.c:611-657 | writing one leaf entry changes the walk of that path and of no other |
| `PageTree.StoreLeafKeepsTree` | src/Gate4Harness/vm_substrate.c:611-657 | a leaf store keeps the tables a tree |
| `PageTree.LinkKeepsTree` | src/Gate4Harness/vm_substrate.c:562-609 | hanging a fresh empty table below an absent entry keeps the tables a tree |
| `PageTree.LinkKeepsWalk` | src/Gate4Harness/vm_substrate.c:562-609 | hanging an empty table changes no walk |
| `Paging.LinkRefines` | src/Gate4Harness/vm_substrate.c:562-609 | growing tables leaves the abstract page map they stand for unchanged |
| `Paging.StoreRefines` | src/Gate4Harness/vm_substrate.c:611-752 | a leaf store is an update of the abstract map at exactly that page |
| `Paging.FreshRoot` | src/Gate4Harness/vm_substrate.c:418-476 | a private copy of the firmware root with the arena slot absent translates every address as before |
| `Paging.ClosedIsSeparated` | src/Gate4Harness/gate4_loader.c:10030-10041 | where every table that a firmware walk reads is firmware table memory, whatever is mapped to what, a pool meets what creation asks of it iff none of its pages is a firmware table |
| `Paging.IdentityMapIsSeparated` | src/Gate4Harness/gate4_loader.c:10030-10041 | a concrete firmware root that maps a 4 KiB and a 2 MiB page of the pool to themselves, every address of both, is closed and meets what creation asks of the pool |
| `Paging.SlotCheckIsExact` | src/Gate4Harness/vm_substrate.c:418-476 | the arena lies in one root slot if and only if the nine-bit index check passes and it is at most 512 GiB long |
| `Paging.SlotCheckCanWrap` | src/Gate4Harness/vm_substrate.c:418-476 | an arena of 2^48 + 1 bytes at 0 passes the check and still reaches another slot |
| `Paging.ArenaPage` | src/Gate4Harness/vm_substrate.c:237-246 | for an arena that ends at or after the first page the test accepts exactly the pages of the arena |
| `Paging.ArenaPageIsExact` | src/Gate4Harness/vm_substrate.c:237-246 | the page test is right about every page if and only if the arena ends at or after the first page |
| `Paging.ArenaPageWraps` | src/Gate4Harness/vm_substrate.c:237-246 | an arena that ends inside the first page is taken to hold the second page |
| `Paging.CopyTable` | src/Gate4Harness/vm_substrate.c:455-458 | the copy loop yields the firmware root |
| `Paging.PageTables.TakePage` | src/Gate4Harness/vm_substrate.c:446-454 | the page of the allocator answer if it has one and an alias, and otherwise nothing is outstanding and a refusal is counted |
| `Paging.PageTables.LendPage` | src/Gate4Harness/gate4_loader.c:10005-10061 | a page lent for data is a fresh one, fit to become a table later, and the tables stay valid |
| `Paging.PageTables.ReturnPage` | src/Gate4Harness/gate4_loader.c:10067-10088 | a lent page given back is free for tables again, and the tables stay valid |
| `Paging.PageTables.GrowTable` | src/Gate4Harness/vm_substrate.c:562-609 | a fresh table is linked and owned, or nothing changes; it fails only if the allocator refused or 64 tables are owned |
| `Paging.PageTables.AllocateTable` | src/Gate4Harness/vm_substrate.c:562-609 | a present entry is followed without change, an absent one is grown or refused for lack of memory only |
| `Paging.PageTables.FindOrGrow` | src/Gate4Harness/vm_substrate.c:637-644 | the page table of an arena page is reached; it fails only if that table was not there before, and then by refusal or by the limit of 64 |
| `Paging.PageTables.MapPage` | src/Gate4Harness/vm_substrate.c:611-657 | success adds exactly that page with its frame and flags; failure changes no translation and each failure has its exact cause |
| `Paging.PageTables.UnmapPage` | src/Gate4Harness/vm_substrate.c:691-752 | removes exactly that page; succeeds iff it was mapped and then returns its frame |
| `Paging.PageTables.FindPageTable` | src/Gate4Harness/vm_substrate.c:712-743 | the walk finds the page table or the page has no 4 KiB mapping |
| `Paging.PageTables.MapRange` | src/Gate4Harness/vm_substrate.c:659-689 | all pages of the run are mapped and none was before, or no translation changes; a new run inside the arena fails only if a table was refused or 64 are owned |
| `Paging.PageTables.MapRun` | src/Gate4Harness/vm_substrate.c:675-689 | the mapping loop, with its undo, under the same condition |
| `Paging.PageTables.UnmapRun` | src/Gate4Harness/vm_substrate.c:680-684 | the undo loop takes the map back to what it was |
| `Paging.PageTables.Create` | src/Gate4Harness/vm_substrate.c:418-476 | on success the tables mean the firmware translation with nothing mapped; on failure every page is back; a valid request over a readable root fails with ALLOCATION iff the allocator gives no usable page, with ARENA_CONFLICT iff it does and the slot is taken, and succeeds otherwise |
| `Paging.PageTables.Install` | src/Gate4Harness/vm_substrate.c:460-475 | the private root with the arena slot absent means the firmware translation with nothing mapped |
| `Paging.TableMemory` | src/Gate4Harness/vm_substrate.c:418-609 | the table memory is the firmware tables and the owned tables, nothing else |
| `Paging.PageTables.Destroy` | src/Gate4Harness/vm_substrate.c:521-540 | every owned table goes back to the pool once and the table memory is the firmware memory again |
| `Paging.PageTables.FreeTables` | src/Gate4Harness/vm_substrate.c:521-540 | each owned page is outstanding at the moment it is freed |
| `Paging.PageTables.Perform` | src/Gate4Harness/vm_substrate.c:611-752 | any run of maps and unmaps keeps the tables sound, the firmware untouched and the pages conserved |
| `Paging.PageTables.LifeCycle` | src/Gate4Harness/vm_substrate.c:418-752 | create, any run, destroy: addresses outside the arena translate as under the firmware root throughout and all pages return |
| `Paging.OwnedFacts` | src/Gate4Harness/vm_substrate.c:562-609 | owned_table_pages lists each allocated table once, and none of them is free |
| `Paging.FirmwareOutsideArena` | src/Gate4Harness/vm_substrate.c:301-376 | whatever is mapped, an address outside the arena translates as under the firmware root |
| `Paging.UnmappedInArena` | src/Gate4Harness/vm_substrate.c:301-376 | an arena address whose page is not mapped does not translate at all |
| `Paging.MappedAddress` | src/Gate4Harness/vm_substrate.c:301-376 | a mapped address translates by its entry, to the frame plus the offset in the page, at level 1 |
| `Packing.PackedInWindow` | src/Gate4Harness/memory_accounting.c:946-1028 | disjoint ranges inside a window add up to no more than the window |
| `Packing.PackedInTable` | src/Gate4Harness/memory_accounting.c:988-1016 | disjoint ranges that each lie in one of other disjoint ranges add up to no more than those |
| `ArenaBooks.PackedTotals` | src/Gate4Harness/memory_accounting.c:946-1036 | every arena that validates has committed <= reserved <= length |
| `ArenaBooks.AddReservationSound` | src/Gate4Harness/memory_accounting.c:546-622 | entering a fitting reservation keeps the arena valid |
| `ArenaBooks.DropReservationSound` | src/Gate4Harness/memory_accounting.c:924-944 | releasing a reservation without committed bytes keeps the arena valid and orphans no commitment |
| `ArenaBooks.AddCommitmentSound` | src/Gate4Harness/memory_accounting.c:782-851 | entering a fitting page keeps the arena valid |
| `ArenaBooks.DropCommitmentSound` | src/Gate4Harness/memory_accounting.c:853-890 | removing a page keeps the arena valid |
| `ArenaBooks.DropUndoesAdd` | src/Gate4Harness/memory_accounting.c:782-890 | decommitting what was just committed restores the arena exactly |
| `ArenaBooks.SamePageSameSlot` | src/Gate4Harness/memory_accounting.c:782-890 | a page has at most one live commitment |
| `Arena.VmArena.constructor` | src/Gate4Harness/memory_accounting.c:524-536 | a created arena is valid and its books are empty |
| `Arena.VmArena.FindReservation` | src/Gate4Harness/memory_accounting.c:686-702 | finds a reservation holding the address, or there is none |
| `Arena.VmArena.FindCommitment` | src/Gate4Harness/memory_accounting.c:764-780 | finds a commitment backing the address, or there is none |
| `Arena.VmArena.Reserve` | src/Gate4Harness/memory_accounting.c:546-591 | succeeds iff the range is inside, free and a slot is left; otherwise nothing changes |
| `Arena.VmArena.ReserveFixed` | src/Gate4Harness/memory_accounting.c:593-622 | an aligned base and a size rounded to pages, with request and owner recorded; success, ALIGNMENT and INVALID_ARGUMENT have exact conditions |
| `Arena.RequestSound` | src/Gate4Harness/memory_accounting.c:593-622 | recording the request and the owner of a new reservation keeps the arena valid |
| `Arena.VmArena.TryCandidate` | src/Gate4Harness/memory_accounting.c:648-672 | a conflicting candidate is skipped to the first granule after everything in its way, and nothing fits below that |
| `Arena.VmArena.ReserveAny` | src/Gate4Harness/memory_accounting.c:624-684 | exact first fit: the lowest 64 KiB-aligned base that fits; success iff one exists and a slot is left; OVERFLOW iff the size cannot be rounded or the search runs past the last address; at most live reservations + 1 rounds |
| `Arena.FurthestIsNext` | src/Gate4Harness/memory_accounting.c:648-672 | stopping the scan at an alignment overflow finds the same next candidate as finishing it |
| `Arena.NoOverrun` | src/Gate4Harness/memory_accounting.c:639-683 | no search runs past the last address in an arena that ends below the last 64 KiB granule |
| `Arena.OverrunIsExact` | src/Gate4Harness/memory_accounting.c:639-683 | some request that can be rounded is answered OVERFLOW in some valid state of the arena if and only if aligning its base leaves 64 bits, or the arena meets the last granule beyond its aligned base by a page |
| `Arena.FullArenaOverflows` | src/Gate4Harness/memory_accounting.c:524-684 | in each of those arenas one reservation of the whole arena makes the next search answer OVERFLOW |
| `Arena.NextGranule` | src/Gate4Harness/memory_accounting.c:624-684 | with the granules below one held and that one free, a search for up to a granule stops exactly there |
| `Arena.FirstFitRun` | src/Gate4Harness/memory_accounting.c:624-684 | in an empty arena the first reservation gets the base, the next one the granule after it, and a released place is used again first |
| `Arena.SkipReservation` | src/Gate4Harness/memory_accounting.c:648-672 | no aligned base below the granule after a conflicting reservation fits |
| `Arena.CandidatePasses` | src/Gate4Harness/memory_accounting.c:648-681 | each rejected candidate leaves a reservation behind for good |
| `Arena.VmArena.FindPage` | src/Gate4Harness/memory_accounting.c:810-820 | finds the live commitment of exactly that page, or there is none |
| `Arena.VmArena.CommitPage` | src/Gate4Harness/memory_accounting.c:782-851 | commits iff arguments, reservation, novelty and capacity allow it; otherwise nothing changes |
| `Arena.VmArena.DecommitPage` | src/Gate4Harness/memory_accounting.c:853-890 | removes the page iff it is committed, and returns its frame |
| `Arena.VmArena.Release` | src/Gate4Harness/memory_accounting.c:924-944 | releases iff the reservation is live and no live commitment refers to it |
| `Arena.VmArena.Available` | src/Gate4Harness/memory_accounting.c:1030-1036 | the answer is the length minus the bytes of the live reservations |
| `ArenaCheck.CheckReservations` | src/Gate4Harness/memory_accounting.c:959-987 | the first loop accepts iff every live reservation is well formed and all are disjoint; it counts and sums them |
| `ArenaCheck.CheckCommitments` | src/Gate4Harness/memory_accounting.c:988-1016 | the second loop accepts iff every live commitment is well formed and all are disjoint; it sums them, also per reservation, without overflow |
| `ArenaCheck.Validate` | src/Gate4Harness/memory_accounting.c:946-1028 | the check accepts exactly the valid books |
| `Coherence.MappedIffCommitted` | src/Gate4Harness/virtual_memory.c:225-438 | in a coherent state a page is mapped iff it has a live commitment, to the same frame, and the outstanding data pages are exactly the committed frames |
| `Coherence.CommitCoherent` | src/Gate4Harness/vm_substrate.c:831-857 | commit of one page in arena, tables and allocator keeps them coherent |
| `Coherence.DropCoherent` | src/Gate4Harness/virtual_memory.c:400-423 | dropping one page from all three keeps them coherent |
| `Coherence.DropUndoesCommit` | src/Gate4Harness/vm_substrate.c:869-880 | dropping a page just committed restores all three |
| `Coherence.DropSlotReservations` | src/Gate4Harness/virtual_memory.c:400-423 | taking a reservation down touches no other reservation |
| `VirtualMemory.Context.constructor` | src/Gate4Harness/virtual_memory.c:91-98 | an empty arena over empty tables is coherent, with no data page outstanding |
| `VirtualMemory.Context.TakeData` | src/Gate4Harness/vm_substrate.c:831-845 | a data page is a fresh page of the one supply; an unusable answer leaves nothing outstanding and is counted as a refusal |
| `VirtualMemory.Context.AllocateData` | src/Gate4Harness/gate4_loader.c:10641-10646 | data pages come from the allocator of the page tables; the supply of pages is conserved |
| `VirtualMemory.Context.FreeData` | src/Gate4Harness/gate4_loader.c:10641-10646 | a data page given back may become a table page; the supply of pages is conserved |
| `VirtualMemory.Context.InstallPage` | src/Gate4Harness/vm_substrate.c:846-868 | maps and books a page, or changes nothing; refuses a page of a reservation only for lack of a table or of a commitment slot |
| `VirtualMemory.Context.ZeroData` | src/Gate4Harness/vm_substrate.c:846-846 | zeroing a data page through its alias changes no table |
| `VirtualMemory.Context.CreatePage` | src/Gate4Harness/vm_substrate.c:831-868 | one page is allocated, zeroed, mapped and booked, or nothing changes; a page of a reservation is refused only by an allocator, the limit of 64 tables or a full commitment table |
| `VirtualMemory.Context.CheckExisting` | src/Gate4Harness/vm_substrate.c:817-830 | a committed page always agrees with the tables |
| `VirtualMemory.Context.VisitPage` | src/Gate4Harness/vm_substrate.c:812-857 | a page is found existing iff it was mapped; otherwise it is made or, for one of those causes, refused without effect |
| `VirtualMemory.Context.DropPage` | src/Gate4Harness/virtual_memory.c:400-423 | unmaps, decommits and frees one page; it cannot fail in a coherent state |
| `VirtualMemory.Context.Rollback` | src/Gate4Harness/vm_substrate.c:869-895 | the undo loop restores the state at the start of the call |
| `VirtualMemory.Context.CommitPages` | src/Gate4Harness/vm_substrate.c:811-896 | all pages or no change; new plus existing pages is the page count; it fails only if an allocator refused, 64 tables are owned, a page lies outside the reservations, or the new pages do not fit the commitment table |
| `VirtualMemory.Context.CommitRange` | src/Gate4Harness/vm_substrate.c:768-896 | all or nothing; each argument failure iff the range does not fit the reservation or the table; new pages get the access asked for; ALLOCATION only if an allocator refused, 64 tables are owned or the new pages do not fit the commitment table |
| `VirtualMemory.Context.CountExisting` | src/Gate4Harness/virtual_memory.c:142-164 | counts the mapped pages of the range |
| `VirtualMemory.Context.PublicCommit` | src/Gate4Harness/virtual_memory.c:166-223 | as CommitRange, with new + existing pages equal to the rounded size, new pages writable and not executable, and INVALID_ARGUMENT iff the start is 0 or the range does not fit the reservation |
| `VirtualMemory.Context.ReserveNew` | src/Gate4Harness/virtual_memory.c:266-325 | a first-fit reservation, with its pages committed if asked for, or no change; reserve alone succeeds iff something fits; a bad argument iff the search overflows or a commit would start at 0; any other failed commit has one of three causes |
| `VirtualMemory.NewIsCommittable` | src/Gate4Harness/virtual_memory.c:282-325 | the range of a new reservation fits it, and with room in the commitment table it can be committed as a whole |
| `VirtualMemory.Context.CleanUp` | src/Gate4Harness/virtual_memory.c:291-320 | releasing a reservation whose pages could not be committed restores the state before the call |
| `VirtualMemory.Context.VirtualAlloc` | src/Gate4Harness/virtual_memory.c:225-337 | every failure leaves arena, tables and allocator as they were; success is described page by page with the access of new pages; INVALID_ARGUMENT, UNSUPPORTED and CAPACITY have exact conditions; a commit that the arguments allow fails only if an allocator refused, 64 tables are owned or the new pages do not fit the commitment table |
| `VirtualMemory.Context.CheckReservation` | src/Gate4Harness/virtual_memory.c:372-399 | the checking pass never finds an inconsistency and counts the committed pages |
| `VirtualMemory.Context.TakeDown` | src/Gate4Harness/virtual_memory.c:400-423 | the release pass never stops half way and drops exactly the pages of the reservation |
| `VirtualMemory.Context.VirtualFree` | src/Gate4Harness/virtual_memory.c:339-438 | succeeds iff the address is a reservation base released whole, and answers UNSUPPORTED iff decommit is asked for; then the reservation and its pages are gone from all three views |
| `VirtualMemory.FreeUndoesAlloc` | src/Gate4Harness/virtual_memory.c:225-438 | freeing what VirtualAlloc has just handed out takes arena, tables and outstanding pages back exactly to where they were |
| `VirtualMemory.AllocThenFree` | src/Gate4Harness/virtual_memory.c:225-438 | what VirtualAlloc hands out away from 0 can be freed, and that undoes it; a reservation at 0 cannot |
| `VirtualMemory.AllocThenLook` | src/Gate4Harness/virtual_memory.c:266-325 | every address of what was reserved and committed is backed and translates, writable and not executable where the processor can tell |
| `VirtualMemory.Context.Perform` | src/Gate4Harness/virtual_memory.c:225-438 | every run of alloc and free, data pages becoming table pages and back included, keeps the three views coherent and conserves the supply of pages |
| `VirtualMemory.Context.Look` | src/Gate4Harness/virtual_memory.c:225-438 | the address is backed iff a commitment holds it, and then translates to the frame of that commitment; another arena address translates not at all, and any other as under the firmware root |
| `VirtualMemory.QueryMeaning` | src/Gate4Harness/vm_substrate.c:301-376 | in a valid context the answer for every address is the one the books give |
| `VirtualMemory.Boot` | src/Gate4Harness/vm_substrate.c:418-476 | tables, arena and context over one supply of pages, with nothing mapped, booked or outstanding; how creation ends is determined by the arguments, the firmware root and the page that the allocator gives |
| `VirtualMemory.Launch` | src/Gate4Harness/virtual_memory.c:91-438 | from nothing, for every firmware that the pool is apart from, every answer of the allocator and every run of calls: each address outside the arena translates as under the firmware root, each one inside to the frame of the commitment that backs it, and without one not at all |
| `VirtualMemory.ZeroFitsAtFirst` | src/Gate4Harness/virtual_memory.c:180-187 | in an arena that starts at 0 and has a page the search of the first request finds base 0 |
| `VirtualMemory.ZeroBaseRefuses` | src/Gate4Harness/virtual_memory.c:180-325 | there the first request to reserve and commit is refused as a bad argument |
| `VirtualMemory.FreshRangeUnmapped` | src/Gate4Harness/virtual_memory.c:282-325 | no page of a range that fits beside the reservations is mapped |
| `Snapshot.Percentage` | src/Gate4Harness/memory_accounting.c:1109-1130 | the loop gives floor(100 * used / total) for all 64-bit used <= total, with no intermediate value reaching total |
| `Snapshot.IsCoherent` | src/Gate4Harness/memory_accounting.c:1177-1203 | the check accepts exactly the coherent snapshots |
| `Snapshot.CoherentFigures` | src/Gate4Harness/memory_accounting.c:1177-1203 | in a coherent snapshot usage, available commit and load follow from the other figures, and committed <= reserved <= total |
| `PhysicalLedger.AddSound` | src/Gate4Harness/memory_accounting.c:356-417 | an accepted allocation keeps the ledger valid |
| `PhysicalLedger.TakeSound` | src/Gate4Harness/memory_accounting.c:419-441 | removing a live entry keeps the ledger valid and no total can fall short |
| `PhysicalLedger.TakeUndoesAdd` | src/Gate4Harness/memory_accounting.c:356-441 | removing what was just inserted restores the ledger |
| `PhysicalLedger.CollideIsTouch` | src/Gate4Harness/memory_accounting.c:30-42 | the overlap test of two recorded places is exactly that they touch |
| `PhysicalLedger.LedgerTable.constructor` | src/Gate4Harness/memory_accounting.c:348-354 | an initialized ledger is valid iff its generation is not zero |
| `PhysicalLedger.LedgerTable.FindClash` | src/Gate4Harness/memory_accounting.c:381-389 | the overlap scan finds a clash iff a recorded live allocation is touched |
| `PhysicalLedger.LedgerTable.Insert` | src/Gate4Harness/memory_accounting.c:356-417 | each answer with its exact condition, in the figures of the allocation; the entry and the totals on success, at most the full mark otherwise |
| `PhysicalLedger.LedgerTable.Remove` | src/Gate4Harness/memory_accounting.c:419-441 | removes iff the entry is live; a valid ledger is never found inconsistent |
| `PhysicalLedger.LedgerTable.Find` | src/Gate4Harness/memory_accounting.c:443-458 | finds the one live entry at that place with that size, or there is none |
| `PhysicalLedger.Validate` | src/Gate4Harness/memory_accounting.c:460-499 | the check accepts exactly the valid ledgers, 64-bit sums included |
| `PhysicalLedger.ValidEntry` | src/Gate4Harness/memory_accounting.c:460-499 | every live entry of a valid ledger has a size, a generation, a known class and owner, and an end |
| `PhysicalLedger.InsertFindRemove` | src/Gate4Harness/memory_accounting.c:356-458 | what was inserted at a recorded place is found, refuses the same place again, and after its removal is not found and charges nothing |
| `PhysicalLedger.Perform` | src/Gate4Harness/memory_accounting.c:348-499 | after any run of insertions and removals the check accepts the ledger |
| `Snapshot.PhysicalCreate` | src/Gate4Harness/memory_accounting.c:1076-1107 | succeeds iff the ledger validates and the figures fit; used plus available is the total |
| `Snapshot.CommitCreate` | src/Gate4Harness/memory_accounting.c:1038-1074 | the limit is available plus committed, held at the total; overflow and success have exact conditions |
| `Snapshot.MemoryCreate` | src/Gate4Harness/memory_accounting.c:1132-1175 | succeeds iff physical, arena and commit figures are valid |
| `Snapshot.QueryCurrent` | src/Gate4Harness/memory_accounting.c:1205-1243 | every Ok view is coherent, and Ok is given exactly when the inputs allow it |
| `Handles.DecodeHandle` | src/Gate4Harness/scheduler_foundation.c:136-151 | an accepted handle has a slot in range and a nonzero generation |
| `Handles.HandleBits` | src/Gate4Harness/scheduler_foundation.c:127-151 | the code in bits: magic, type, generation, and slot counted from one |
| `Handles.HandleRoundTrip` | src/Gate4Harness/scheduler_foundation.c:127-151 | a made handle decodes to its slot and generation under its own type and to nothing under another |
| `Handles.GenerationStep` | src/Gate4Harness/scheduler_foundation.c:171-196 | the 16-bit increment that skips zero moves from the n-th to the (n+1)-th generation |
| `Handles.GenerationRepeats` | src/Gate4Harness/scheduler_foundation.c:171-196 | two allocations of a slot share a generation iff they are a multiple of 65535 apart |
| `Scheduler.Lookup` | src/Gate4Harness/scheduler_foundation.c:153-169 | resolves only to a live object of the asked type |
| `Scheduler.OpenEvent` | src/Gate4Harness/scheduler_foundation.c:555-579 | resolves only to a live event |
| `Scheduler.IssuedHandle` | src/Gate4Harness/scheduler_foundation.c:127-205 | an issued handle resolves to its own object or to nothing until the slot has been reallocated 65535 times, and exactly when it can resolve to another |
| `Scheduler.HandleKinds` | src/Gate4Harness/scheduler_foundation.c:136-169 | a handle of one type never resolves as another |
| `Scheduler.OneRunning` | src/Gate4Harness/scheduler_foundation.c:1329-1374 | exactly the current thread is RUNNING |
| `Scheduler.BlockedThreadWaits` | src/Gate4Harness/scheduler_foundation.c:405-472 | a BLOCKED thread owns one uncompleted record, linked at its recorded index in one unsignaled event and nowhere else |
| `Scheduler.BoundedWaiting` | src/Gate4Harness/scheduler_foundation.c:374-403 | a queued thread has seen fewer than MAX_THREADS switches since it was queued |
| `Scheduler.TokensConserved` | src/Gate4Harness/scheduler_foundation.c:1147-1165 | waits satisfied by an auto-reset event plus a kept signal never exceed its initial signal plus the signal calls |
| `Scheduler.CompletedOnce` | src/Gate4Harness/scheduler_foundation.c:446-487 | a wait is completed iff it has a recorded outcome; no two waits share record, thread or outcome |
| `SchedState.DistanceShrinks` | src/Gate4Harness/scheduler_foundation.c:374-403 | moving on to the nearest queued thread brings every other queued thread nearer |
| `SchedState.CompleteInv` | src/Gate4Harness/scheduler_foundation.c:427-472 | completing one linked wait keeps every part of the scheduler invariant |
| `SchedState.CompleteHistory` | src/Gate4Harness/scheduler_foundation.c:446-472 | a completion in time, or after a signal, is explained by what the wait was registered with |
| `SchedState.DispatchInv` | src/Gate4Harness/scheduler_foundation.c:394-403 | dispatching the chosen thread keeps the invariant |
| `SchedState.LeaveYieldInv` | src/Gate4Harness/scheduler_foundation.c:1329-1342 | the yielding thread goes to the queue without breaking the invariant |
| `SchedState.LeaveTerminateInv` | src/Gate4Harness/scheduler_foundation.c:1358-1369 | a worker without a wait record may end without breaking the invariant |
| `SchedSteps.LeaveBlockInv` | src/Gate4Harness/scheduler_foundation.c:1222-1257 | registering a wait keeps the invariant |
| `SchedSteps.RecordIsFree` | src/Gate4Harness/scheduler_foundation.c:489-516 | a thread without a record always finds a free wait record |
| `SchedSteps.WaiterFits` | src/Gate4Harness/scheduler_foundation.c:405-425 | add_waiter always has room and never meets the record twice |
| `SchedSteps.QueueFits` | src/Gate4Harness/scheduler_foundation.c:325-336 | enqueue_runnable always has room for a thread that is not queued |
| `SchedSteps.FinishFacts` | src/Gate4Harness/scheduler_foundation.c:1291-1326 | the record of a running thread is completed, with a recorded outcome and its pin held |
| `SchedSteps.ReleaseInv` | src/Gate4Harness/scheduler_foundation.c:536-546 | giving back a completed record keeps the invariant, pins and counts included |
| `SchedSteps.BirthEventInv` | src/Gate4Harness/scheduler_foundation.c:756-787 | creating an event keeps the invariant |
| `SchedSteps.BirthThreadInv` | src/Gate4Harness/scheduler_foundation.c:884-990 | creating a thread keeps the invariant |
| `SchedSteps.CloseObjectInv` | src/Gate4Harness/scheduler_foundation.c:1128-1145 | closing a handle keeps the invariant |
| `SchedSteps.DropEventInv` | src/Gate4Harness/scheduler_foundation.c:1392-1407 | destroying an unpinned event keeps the invariant |
| `SchedSteps.UnpinnedEvent` | src/Gate4Harness/scheduler_foundation.c:1392-1407 | an event without pins has no wait record, finished or not |
| `SchedSteps.ReapInv` | src/Gate4Harness/scheduler_foundation.c:1098-1126 | reclaiming an ended thread keeps the invariant |
| `SchedSteps.ResumeInv` | src/Gate4Harness/scheduler_foundation.c:1057-1096 | resuming a suspended thread keeps the invariant |
| `SchedWaits.WakeAllMeaning` | src/Gate4Harness/scheduler_foundation.c:1155-1157 | the wake loop of a manual-reset event completes exactly the linked waits of that event as signaled |
| `SchedWaits.SignalMeaning` | src/Gate4Harness/scheduler_foundation.c:1147-1165 | no signal is lost: a manual-reset event keeps it and frees every waiter, an auto-reset event gives it to its first waiter or, having none, keeps it |
| `SchedWaits.SignaledInv` | src/Gate4Harness/scheduler_foundation.c:1147-1165 | a signal keeps the invariant, also that it came after the waits that it completes |
| `SchedWaits.FlagThenWake` | src/Gate4Harness/scheduler_foundation.c:1155-1157 | setting the flag before waking gives the same state as after |
| `SchedWaits.ExpireStep` | src/Gate4Harness/scheduler_foundation.c:690-705 | one round of the timeout scan completes its record iff it is armed, uncompleted and due |
| `Scheduler.ShiftDown` | src/Gate4Harness/scheduler_foundation.c:344-351 | the shift loop removes one entry and keeps the order of the others |
| `Scheduler.Kernel.constructor` | src/Gate4Harness/scheduler_foundation.c:581-643 | the initialized scheduler is the boot state and satisfies the invariant |
| `Scheduler.Kernel.EnqueueRunnable` | src/Gate4Harness/scheduler_foundation.c:325-336 | appends a RUNNABLE thread once; refuses exactly when not RUNNABLE or full |
| `Scheduler.Kernel.RemoveRunnable` | src/Gate4Harness/scheduler_foundation.c:338-358 | removes the thread and keeps the order of the rest |
| `Scheduler.Kernel.PickNext` | src/Gate4Harness/scheduler_foundation.c:374-392 | the nearest queued slot after the current one, or none iff the queue is empty |
| `Scheduler.Kernel.ChooseNext` | src/Gate4Harness/scheduler_foundation.c:394-403 | the chosen thread leaves the queue and becomes current and RUNNING |
| `Scheduler.Kernel.Yield` | src/Gate4Harness/scheduler_foundation.c:1329-1351 | always succeeds and hands the processor to the nearest runnable thread, possibly the caller |
| `Scheduler.TerminateExact` | src/Gate4Harness/scheduler_foundation.c:1358-1374 | ending a thread keeps the invariant iff it has no wait record |
| `Scheduler.Kernel.Terminate` | src/Gate4Harness/scheduler_foundation.c:1358-1374 | the exact new state; the scheduler stays sound iff the boot thread was refused, or another thread is runnable and no wait record is left |
| `Scheduler.Kernel.AllocateObject` | src/Gate4Harness/scheduler_foundation.c:171-196 | takes a dead slot with the next generation, or none is dead |
| `Scheduler.Kernel.CreateEvent` | src/Gate4Harness/scheduler_foundation.c:756-787 | succeeds iff an event and an object slot are free; the new handle opens a new event of the kind and state asked for, without waiters, and no other event changes |
| `Scheduler.Kernel.CreateThread` | src/Gate4Harness/scheduler_foundation.c:884-990 | succeeds iff slots and resources are there; a late failure only burns a generation |
| `Scheduler.Kernel.Resume` | src/Gate4Harness/scheduler_foundation.c:1057-1096 | resumes a suspended thread once, is a no-op afterwards, and fails exactly for closed, ended or damaged threads |
| `Scheduler.Kernel.MaybeReclaim` | src/Gate4Harness/scheduler_foundation.c:1098-1126 | reclaims exactly an ended worker that nobody refers to |
| `Scheduler.Kernel.Close` | src/Gate4Harness/scheduler_foundation.c:1128-1145 | drops the public reference iff there is one, and reclaims an ended thread |
| `Scheduler.DestroyExact` | src/Gate4Harness/scheduler_foundation.c:1392-1407 | the destroy test is exactly that no wait record pins the event |
| `Scheduler.Kernel.TryDestroyEvent` | src/Gate4Harness/scheduler_foundation.c:1392-1407 | destroys iff the handle is closed and no wait record pins the event |
| `Scheduler.Kernel.TryReclaim` | src/Gate4Harness/scheduler_foundation.c:1428-1435 | the thread is gone iff it was reclaimable and the services agreed |
| `Scheduler.DiscardExact` | src/Gate4Harness/scheduler_foundation.c:1437-1448 | discarding keeps the invariant iff the thread is a worker without a wait record |
| `Scheduler.Kernel.Discard` | src/Gate4Harness/scheduler_foundation.c:1437-1448 | the exact new state, and the invariant survives iff the thread is a worker without a wait record |
| `Scheduler.Kernel.Collect` | src/Gate4Harness/scheduler_foundation.c:1450-1458 | exactly the reclaimable threads are gone |
| `Scheduler.Kernel.RemoveWaiter` | src/Gate4Harness/scheduler_foundation.c:427-444 | the last waiter takes the freed place and learns its new index |
| `Scheduler.Kernel.CompleteWaiter` | src/Gate4Harness/scheduler_foundation.c:446-472 | the whole effect for every waiter: only unlinked if it is no unfinished wait; otherwise completed, and its thread queued or, if the queue does not take it, left BLOCKED |
| `Scheduler.Kernel.WakeThread` | src/Gate4Harness/scheduler_foundation.c:466-471 | the thread is RUNNABLE and queued once, or BLOCKED if it is not live or the queue is full |
| `Scheduler.WakeableCompletes` | src/Gate4Harness/scheduler_foundation.c:446-472 | for an unfinished wait of a thread that is not queued this is the completion of that wait |
| `Scheduler.Kernel.Signal` | src/Gate4Harness/scheduler_foundation.c:1147-1165 | the whole effect of a signal on a live event, open or closed; nothing otherwise |
| `Scheduler.Kernel.SignalAll` | src/Gate4Harness/scheduler_foundation.c:1155-1157 | every waiter of a manual-reset event is woken and the flag is set |
| `Scheduler.Kernel.Reset` | src/Gate4Harness/scheduler_foundation.c:1167-1177 | clears the flag of the event and nothing else |
| `Scheduler.Kernel.ArmTimeout` | src/Gate4Harness/scheduler_foundation.c:677-688 | arms the pending timeout iff the running thread has no wait record |
| `Scheduler.Kernel.ServiceTimeouts` | src/Gate4Harness/scheduler_foundation.c:690-705 | completes exactly the armed waits whose deadline has passed, uses no token and counts them |
| `Scheduler.Kernel.AddWaiter` | src/Gate4Harness/scheduler_foundation.c:405-425 | appends the record iff there is room and neither record nor thread waits already |
| `Scheduler.Kernel.AllocateRecord` | src/Gate4Harness/scheduler_foundation.c:489-516 | takes a free record with the next generation, or none is free |
| `Scheduler.Kernel.Register` | src/Gate4Harness/scheduler_foundation.c:1222-1257 | pin, record, waiter entry and BLOCKED; it never fails |
| `Scheduler.Kernel.ReleaseRecord` | src/Gate4Harness/scheduler_foundation.c:527-546 | the record is zeroed, the pin dropped and the count lowered |
| `Scheduler.Kernel.Unregister` | src/Gate4Harness/scheduler_foundation.c:1258-1266 | undoes registration, pin and state change completely |
| `Scheduler.Kernel.Block` | src/Gate4Harness/scheduler_foundation.c:1222-1271 | the caller is parked and the next thread runs, or without one the wait leaves no trace |
| `Scheduler.Kernel.PrepareWait` | src/Gate4Harness/scheduler_foundation.c:1179-1271 | a wait is satisfied at once iff the handle names a signaled event, closed or not; an open unsignaled one blocks iff another thread is runnable and otherwise leaves no trace |
| `Scheduler.ClosedHandle` | src/Gate4Harness/scheduler_foundation.c:1199-1219 | a handle that opens no event still meets one iff it names one that is live and signaled |
| `Scheduler.Kernel.FinishWait` | src/Gate4Harness/scheduler_foundation.c:1291-1326 | reports how that very wait was completed and gives the record back; a wrong handle changes nothing |
| `EventApi.OpenForWait` | src/Gate4Harness/event_api.c:54-63 | the open event, or one of the two errors |
| `EventApi.WaitHandles` | src/Gate4Harness/event_api.c:54-63 | an open event can be waited on, an open thread earns INVALID_PARAMETER, everything else INVALID_HANDLE |
| `EventApi.Deadline` | src/Gate4Harness/event_api.c:75-76 | the deadline is now + milliseconds, held at the largest value |
| `EventApi.WaitOne` | src/Gate4Harness/event_api.c:33-90 | each early answer with its exact condition; otherwise the caller is parked under the armed deadline or refused without effect |
| `EventApi.EndWait` | src/Gate4Harness/event_api.c:82-90 | the answer is the recorded outcome of the wait |
| `EventApi.SetEvent` | src/Gate4Harness/event_api.c:92-105 | signals iff the handle is open |
| `EventApi.ResetEvent` | src/Gate4Harness/event_api.c:107-120 | resets iff the handle is open |
| `EventApi.StillOpen` | src/Gate4Harness/event_api.c:77-81 | servicing timeouts neither closes handles nor signals events |
| `EventRuns.AutoResetOnce` | src/Gate4Harness/event_api.c:33-72 | an auto-reset event created signaled satisfies one wait, and the next one times out |
| `EventRuns.ManualResetKeeps` | src/Gate4Harness/event_api.c:33-120 | a manual-reset event created signaled satisfies every wait until it is reset, and then waits time out |
| `EventRuns.ResetThenWait` | src/Gate4Harness/event_api.c:107-120 | after a reset a wait without time to wait times out |
| `EventRuns.SetThenWait` | src/Gate4Harness/event_api.c:92-105 | a signal that no thread waits for satisfies the next wait, and of a manual-reset event also the one after |
| `EventRuns.WaitAlone` | src/Gate4Harness/event_api.c:82-90 | a wait that would leave nobody running is refused and leaves nothing to finish |
| `EventRuns.PrepareThenFinish` | src/Gate4Harness/scheduler_foundation.c:1179-1326 | a wait satisfied at once is finished once |
| `EventRuns.CloseTwice` | src/Gate4Harness/scheduler_foundation.c:1128-1145 | a closed event handle opens nothing and cannot be closed again |
| `EventRuns.EventLife` | src/Gate4Harness/scheduler_foundation.c:756-1407 | an event can be destroyed once its handle is closed, not before, and then its handle names nothing |
| `EventRuns.SignalWakes` | src/Gate4Harness/scheduler_foundation.c:1147-1326 | a thread that blocks on an event gives way, and a signal brings it back with WAIT_OBJECT_0 |
| `EventRuns.TimeoutWakes` | src/Gate4Harness/scheduler_foundation.c:690-705 | a wait of ten milliseconds from 100 on is on at 109, over at 110, and answers WAIT_TIMEOUT |
| `EventRuns.ResumeTwice` | src/Gate4Harness/scheduler_foundation.c:1057-1096 | a created thread is resumed once, from suspend count 1; the next resume finds 0 |
| `EventRuns.NextInOrder` | src/Gate4Harness/scheduler_foundation.c:374-392 | the next thread is the least queued slot above the current one, or else the least of all |
| `EventRuns.WorkerLife` | src/Gate4Harness/scheduler_foundation.c:884-1374 | a resumed worker gets the processor, gives it back when it ends, and is gone once its handle is closed, not before |
| `EventRuns.DiscardCreated` | src/Gate4Harness/scheduler_foundation.c:1437-1448 | a created thread can be discarded once its handle is closed, not before, and then its handle names nothing |
| `SchedulerRuns.RunsInTime` | src/Gate4Harness/scheduler_foundation.c:374-403 | over any run, a queued thread that is not discarded has been dispatched once MAX_THREADS switches have passed |
| `SchedulerRuns.NoWaitIsLost` | src/Gate4Harness/scheduler_foundation.c:446-546 | over any run, a registered wait whose record is gone has an outcome, and that outcome never changes |
| `SchedulerRuns.WhyItEnded` | src/Gate4Harness/scheduler_foundation.c:446-705 | over any run, a wait ends by timeout only at a clock reading at or after its armed deadline, and as signaled only if its own event was signaled after it was registered |
| `SchedulerRuns.SignaledLater` | src/Gate4Harness/scheduler_foundation.c:1147-1165 | a signal loses no wait and no queued thread, and changes no outcome already recorded |
| `SchedulerRuns.Perform` | src/Gate4Harness/scheduler_foundation.c:325-1458 | every run keeps the invariant; outcomes, tickets of registered waits and queued threads are never lost on the way; the run stops only before a call that the program leaves to its callers to avoid |
| `SchedulerRuns.FromBoot` | src/Gate4Harness/scheduler_foundation.c:581-643 | every state reached from initialization satisfies the invariant |
| `SchedulerRuns.TerminateCanStrand` | src/Gate4Harness/scheduler_foundation.c:1358-1374 | a reachable state in which ending the running worker leaves nobody running |
| `SchedulerRuns.DiscardCanStrand` | src/Gate4Harness/scheduler_foundation.c:1437-1448 | a reachable state in which the boot thread is discarded |
| `SchedulerRuns.ClosedHandleWaits` | src/Gate4Harness/scheduler_foundation.c:1179-1219 | a reachable state in which a wait through a closed handle is satisfied |
| `Utf.EncodeIsChar` | src/Gate4Harness/platform_multibyte.c:156-217 | every scalar value encodes to a UTF8-char of section 4 of RFC 3629 with that payload |
| `Utf.KnownEncodings` | src/Gate4Harness/platform_multibyte.c:156-217 | encodings of one to four bytes and a surrogate pair as section 7 of RFC 3629 and RFC 2781 give them |
| `Utf.CharIsEncoded` | src/Gate4Harness/platform_multibyte.c:156-217 | every UTF8-char encodes its payload: no overlong form, no surrogate, nothing above U+10FFFF |
| `Utf.CharsPrefixFree` | src/Gate4Harness/platform_multibyte.c:156-217 | no UTF8-char is a proper prefix of another |
| `Utf.PrefixCode` | src/Gate4Harness/platform_multibyte.c:366-452 | a text whose bytes are a prefix of those of another is a prefix of it |
| `Utf.UniqueText` | src/Gate4Harness/platform_multibyte.c:366-452 | a byte string encodes at most one text |
| `Utf.WellFormedIsEncoded` | src/Gate4Harness/platform_multibyte.c:374-391 | the strings of the RFC 3629 grammar are exactly the encoded texts |
| `Utf.Utf16RoundTrip` | src/Gate4Harness/platform_multibyte.c:423-431 | decoding the UTF-16 of a text (section 2.2 of RFC 2781) gives the text back |
| `Utf.UnitsWithinBytes` | src/Gate4Harness/platform_multibyte.c:382-397 | UTF-16 never has more units than UTF-8 has bytes |
| `Utf.StuckIsIllFormed` | src/Gate4Harness/platform_multibyte.c:374-381 | where no UTF8-char starts, the whole string is not well formed |
| `Multibyte.CheckContext` | src/Gate4Harness/platform_multibyte.c:20-37 | accepts exactly the valid region lists |
| `Multibyte.FindRegion` | src/Gate4Harness/platform_multibyte.c:39-50 | a region holding the address, or there is none |
| `Multibyte.RangeCovered` | src/Gate4Harness/platform_multibyte.c:52-87 | covered means every byte lies in a permitting region; each refusal has its cause |
| `Multibyte.DisjointRegions` | src/Gate4Harness/platform_multibyte.c:52-87 | where regions do not overlap, refused is exactly not accessible |
| `Multibyte.AccessMeaning` | src/Gate4Harness/platform_multibyte.c:20-87 | canonical addresses are the two halves; a byte is accessible iff a region that holds it is readable, and writable for a write |
| `Multibyte.Overlap` | src/Gate4Harness/platform_multibyte.c:140-154 | no overlap means no common address; overlap of ranges that fit the address space means there is one |
| `Multibyte.Machine.DecodeOne` | src/Gate4Harness/platform_multibyte.c:156-217 | finds the UTF8-char that starts at the offset and its payload iff there is one |
| `Multibyte.Machine.SourceRange` | src/Gate4Harness/platform_multibyte.c:89-138 | the byte count, or the distance to the first zero byte within 65536, all of it readable; each refusal has its cause |
| `Multibyte.Machine.CountUnits` | src/Gate4Harness/platform_multibyte.c:374-391 | accepts iff the bytes are well formed, counts the UTF-16 units and cannot overflow |
| `Multibyte.Machine.WriteUnits` | src/Gate4Harness/platform_multibyte.c:410-433 | writes exactly the counted units, changes nothing else and cannot fail |
| `Multibyte.Machine.StoreChar` | src/Gate4Harness/platform_multibyte.c:423-431 | one unit or a surrogate pair, low byte first |
| `Multibyte.LowByteFirst` | src/Gate4Harness/platform_multibyte.c:423-431 | a stored unit is its first byte plus 256 times its second |
| `Multibyte.Machine.CheckDestination` | src/Gate4Harness/platform_multibyte.c:318-350 | null, size and coverage checks with their exact causes |
| `Multibyte.Machine.Convert` | src/Gate4Harness/platform_multibyte.c:259-452 | failure leaves memory untouched, each status has its cause, and the last error is 1113 for ill-formed bytes, 122 for a short buffer and 87 otherwise; success writes the UTF-16 of the text the bytes encode and nothing else |
| `MallocRegistry.LargestMeaning` | src/Gate4Harness/crt_malloc.c:485-499 | the largest request is the maximum of the live sizes |
| `MallocRegistry.GrantInv` | src/Gate4Harness/crt_malloc.c:408-427 | registering an acceptable block keeps the strengthened invariant |
| `MallocRegistry.DropInv` | src/Gate4Harness/crt_malloc.c:638-653 | releasing a live block keeps the strengthened invariant |
| `MallocRegistry.DropRing` | src/Gate4Harness/crt_malloc.c:501-525 | the ring holds exactly the last min(64, n) releases |
| `MallocRegistry.RingIsRecent` | src/Gate4Harness/crt_malloc.c:171-187 | a pointer is found in the ring iff one of the last 64 releases had it |
| `MallocRegistry.GrantExact` | src/Gate4Harness/crt_malloc.c:46-106 | the registry check survives an allocation iff the next sequence number is unused |
| `MallocRegistry.CheckIsNotInductive` | src/Gate4Harness/crt_malloc.c:46-106 | a registry that passes the check and fails it after one allocation |
| `MallocRegistry.Registry.constructor` | src/Gate4Harness/crt_malloc.c:108-114 | a reset registry satisfies the invariant |
| `MallocRegistry.Registry.AddProtected` | src/Gate4Harness/crt_malloc.c:116-133 | adds a range without looking at live blocks; blocks stay clear of all ranges iff they are clear of the new one |
| `MallocRegistry.ProtectedCanOverlap` | src/Gate4Harness/crt_malloc.c:116-133 | a block that was handed out before and a range added over it overlap |
| `MallocRegistry.Registry.RegistryValid` | src/Gate4Harness/crt_malloc.c:46-106 | with 64-bit wrap-around, accepts exactly the well-formed, disjoint and correctly totalled registries |
| `MallocRegistry.Registry.RangesValid` | src/Gate4Harness/crt_malloc.c:30-44 | accepts exactly the valid range lists |
| `MallocRegistry.Registry.FindLive` | src/Gate4Harness/crt_malloc.c:135-147 | the live block at the pointer, or there is none |
| `MallocRegistry.Registry.FindContaining` | src/Gate4Harness/crt_malloc.c:149-169 | true iff the pointer lies strictly inside a live block |
| `MallocRegistry.Registry.FindRelease` | src/Gate4Harness/crt_malloc.c:171-187 | true iff one of the last 64 releases had the pointer |
| `MallocRegistry.Registry.RecomputeLargest` | src/Gate4Harness/crt_malloc.c:485-499 | the maximum of the live sizes |
| `MallocRegistry.Registry.CheckAnswer` | src/Gate4Harness/crt_malloc.c:357-406 | accepts the pool answer iff it is aligned, in range and clear of every protected range and live block |
| `MallocRegistry.Registry.Malloc` | src/Gate4Harness/crt_malloc.c:267-447 | success and its exact condition for every pool answer, and then exactly one block more, of that pointer and size under the next sequence number; each argument failure exactly; failure changes nothing; a rejected block is given back, also, and exactly when the answer names one, a live block |
| `MallocRegistry.LiveIsRefused` | src/Gate4Harness/crt_malloc.c:385-394 | the pointer of a live block is never accepted again |
| `MallocRegistry.LiveIsGivenBack` | src/Gate4Harness/crt_malloc.c:236-246 | a reachable registry in which a live block is given back to the pool and stays registered |
| `MallocRegistry.Registry.RememberRelease` | src/Gate4Harness/crt_malloc.c:501-525 | the release goes to the oldest place of the ring |
| `MallocRegistry.Registry.Free` | src/Gate4Harness/crt_malloc.c:527-660 | frees exactly live blocks, and then that block is gone and is the latest release remembered, by pointer, size and sequence; interior, double and unknown pointers and the three service failures are told apart exactly |
| `MallocRegistry.RemovedIsDouble` | src/Gate4Harness/crt_malloc.c:501-525 | what has just been released is remembered and is neither live nor inside a live block |
| `MallocRegistry.FreeTwice` | src/Gate4Harness/crt_malloc.c:527-660 | a pointer that was freed is answered DOUBLE_FREE when it is freed again |
| `MallocRegistry.Borrow` | src/Gate4Harness/crt_malloc.c:267-660 | a block handed out cannot be handed out again, and is freed by its pointer and by no other address inside it |
| `MallocRegistry.Registry.Perform` | src/Gate4Harness/crt_malloc.c:267-660 | every run keeps blocks disjoint, totals exact and accounting_generation at 1 + allocations + releases |
| `Calendar.ClosedYears` | src/Gate4Harness/platform_time.c:84-87 | the year loop is the closed Gregorian day count from 1601 |
| `Calendar.ClosedMonths` | src/Gate4Harness/platform_time.c:88-92 | the month loop is the closed day count within the year |
| `Calendar.DayNumberClosed` | src/Gate4Harness/platform_time.c:77-98 | the day number in closed form |
| `Calendar.DayNumberCounts` | src/Gate4Harness/platform_time.c:77-98 | the day number counts civil days one by one from 1601-01-01 |
| `Calendar.DaysOrdered` | src/Gate4Harness/platform_time.c:77-98 | day numbers follow the calendar order strictly |
| `Calendar.DaysSinceEpoch` | src/Gate4Harness/platform_time.c:77-98 | computes the day number and cannot overflow |
| `Calendar.CheckedAdd` | src/Gate4Harness/platform_time.c:38-43 | succeeds iff the sum fits 64 bits |
| `Calendar.CheckedMul` | src/Gate4Harness/platform_time.c:45-50 | succeeds iff the product fits 64 bits |
| `Calendar.FromLocal` | src/Gate4Harness/platform_time.c:100-153 | the FILETIME of a valid civil time in its zone; invalid fields in figures; overflow iff the zone reaches back before 1601 |
| `Calendar.ZoneMeaning` | src/Gate4Harness/platform_time.c:129-137 | where UTC lies the zone after local time in minutes, both have the same FILETIME |
| `Calendar.SameInstant` | src/Gate4Harness/platform_time.c:100-153 | converting local time in its zone and the same instant in UTC gives the same FILETIME |
| `Calendar.FileTimeSpans` | src/Gate4Harness/platform_time.c:100-153 | a day, hour, minute and second further are 864000000000, 36000000000, 600000000 and 10000000 units further |
| `Calendar.KnownInstants` | src/Gate4Harness/platform_time.c:100-153 | 1601-01-01 is 0, 1970-01-01 is 116444736000000000, and noon of 2024-06-01 two hours west of UTC is 14:00 UTC |
| `Calendar.KnownFirmwareTime` | src/Gate4Harness/platform_time.c:161-190 | an EFI_TIME is converted with its own zone |
| `Calendar.FileTimeOrdered` | src/Gate4Harness/platform_time.c:155-159 | FILETIME follows the order of UTC civil time, and two times agree iff they lie in the same 100 ns unit |
| `Calendar.FromEfi` | src/Gate4Harness/platform_time.c:161-190 | an accepted EFI_TIME always converts, and which ones are accepted |
| `Calendar.WriteFileTime` | src/Gate4Harness/platform_time.c:192-205 | the eight bytes read back as the value, low byte first, and nothing else is written |

## Left out

- Control registers, MSR access, TLB invalidation, root switching and gxos_vm_paging_audit_current.
- Register contexts, TEB, TLS and FLS contents, canary bytes and context validation: their verdicts are parameters, and a context switch is a change of `current`.
- Scheduler thread pages: four stack pages are allocated and one is freed, so their conservation is not claimed.
- Teardown, note_worker_started, environment adoption and the diagnostic counters and reports of all parts.
- Memory resource notifications and standard streams, which share the object table; other object types never resolve here.
- The null-pointer and not-initialized exits at the top of most functions; the model starts from an initialized object.
- Page contents and the last-error word of the virtual memory layer.
- A table alias that vanishes right after its page was allocated; physical_alias is taken to be consistent.
- gxos_vm_arena_commit and gxos_vm_arena_decommit for several pages, which must not be mixed with the page-wise calls that VirtualAlloc uses.
- Mapping on arenas above 512 GiB or ending inside the first page; `Paging.PageTables.Valid` excludes them, see Findings.
- The order in which an event wakes its waiters: removal swaps the tail in, so it is not first-in first-out and no order is claimed.
- Wrap-around of the 32-bit wait generation, which the program uses for diagnostics only.
- Memory-map parsing and classification: the snapshots take their verdict and totals.
- The VM region ledger of vm_substrate.c and gxos_wait_for_multiple_objects_ex, which only forwards one handle.
- Owner, class, state and backing-size fields of malloc records, constant for every live record.
- Fixed C arrays inside the large context structures are sequence fields that the methods reassign, so aliasing between them is not modelled.
- GetSystemTimeAsFileTime, which calls firmware and halts on failure.
- Thin wrappers and query contracts (`platform_*`, `crt_str*`, `com_api`, `write_file`): argument checks before one store.
- VirtualMemory.Context.VirtualAlloc: says when a commit can fail, not when it does, because an allocator may refuse at any call.
- SchedulerRuns.Perform: stops before a call to terminate or discard that its caller may not make, because the program does not check it.

# Memory and processes of mCertiKOS, verified

This project models the memory and process stack of the kernel in Dafny and proves what it is for:

- **Page allocator and quota containers** (`AllocTable`, `PageAllocator`, `Containers`,
  `ContainerTable`, `Ledger`): exact conservation of pages against quotas over every run, the
  heap-shaped container tree, and the exact behaviour of the consecutive allocator.
- **Two-level page tables** (`Words`, `PageTables`, `Mapping`, `PageStructure`): the structure refines
  a flat map from virtual pages to entries, mapping round trips restore that map, and the invariants
  (tables distinct, never data, free pages zero, writable frames exclusive, kernel map the identity)
  hold in every reachable state.
- **Fork with copy-on-write** (`Fork`, `CowRefinement`, `ForkProgress`): every run of process
  creations, user stores, page faults, mappings, unmappings and forks refines a machine in which each
  process has a memory of its own and fork copies all of it; the one fault that breaks this is named,
  with its exact condition; and stores go on after a fork, in parent and child.
- **Whole kernel runs** (`BlockMapping`, `BlockOverrun`, `KernelRuns`): the same with blocks of
  consecutive pages and programs launched; over every run on one contiguous region the invariant holds
  throughout exactly when every event meets a stated condition.
- **Thread queues and scheduler** (`ThreadQueues`, `Scheduler`): index-linked queues sharing one TCB
  pool represent disjoint sequences; a thread at position k of the ready queue runs after exactly
  k + 1 yields.
- **Boot** (`MemoryMap`, `PhysicalMap`, `BootClassify`, `Boot`): from the E820 table (section 15.1 of
  the ACPI specification, version 6) through the linked-list memory map to the page classes, the root
  quota, the page tables and the invariant all runs start from.
- **User copies and the ELF loader** (`UserCopy`, `PageDemand`, `CopyServed`, `ElfLoad`,
  `ProgramMemory`, `ProgramLoading`): page-chunked copies are byte-by-byte copies, whether pages are shared or not and
  whether they can all be had or not; loading builds the image the program headers describe (chapter 5
  of the System V gABI), and a new process gets exactly the memory its executable and the pages it can
  get determine; and exactly how many pages either needs.
- **Number printer and parser** (`NumberText`): `strtol` reads back whatever `printnum` prints.

Each layer has two halves.  The functions on values say what one call does to the state; the main
theorems are lemmas about them.  The classes (`Allocator`, `ContainerArray`, `PagedMemory`,
`QueuePool`, `Threads`, `PhysMap`, `Output`) and the methods of `ProgramLoading` hold the arrays and
loops of the kernel, and each method's `ensures` equates the new state with the function of the old.

Entry bits follow 32-bit paging, section 4.3 of the Intel SDM, volume 3A.  Words are integers below
2^32; `U32` and `S32` mark every conversion that may wrap.  Static data and unallocated RAM are taken
to be zero at boot, and the identity page tables to lie above 1 MB, where the kernel is linked
(kern/Makefile.inc:23).

## Where the code differs from its comments

The model follows the code.

- `consecutive_palloc` tests the page the search started from instead of the page it has reached, so it
  returns the page `palloc` would and marks the pages after it whether free or not.
  `ConsecutivePallocExact` says exactly when that is what a run search does;
  `FragmentedTableHandsOutTakenPage` is the case where it is not.
- `container_alloc` takes the page before it looks at the quota, so an over-quota call loses a page.
  `AllocKeeps` counts the loss and the conservation law carries it.
- `alloc_ptbl` and `vmm_copy` do not clear a new page table.  That is correct because free pages are
  zero in every reachable state, part of the invariant `PageTables.Inv`.
- The scan of `unmap_page` for the start of a super page compares the same entry every time round: it
  stops at once or never.  `UnmapHangsIff` says exactly when, `UnmapReturns` that it never hangs where
  frames within a process are distinct.
- `pgflt_handler` checks no range, and the last page of the address space is missing in a table all
  processes share.  A fault there for which a page can be had maps that page, writable, into every
  process: `LastPageIsShared`.  `FaultRefinesIff` and `InvThroughoutIff` show this to be the only fault
  that breaks the refinement.
- `vmm_copy` marks read-only pages copy-on-write too, so that a later write fault makes them writable:
  `ReadOnlyPageBecomesWritable`, and `StorableAfterForkIff` for exactly which pages.
- The kernel copy routines write through physical memory and do not break copy-on-write sharing:
  after a fork a copy to the parent is seen by the child (`CopyoutAfterForkIsSeen`).
  `CopyLoopIsByteCopy` says which pages of others change, `WriteStaysHomeIff` when none does.
- The kernel copy routines do not look at the result of `alloc_page`: where no page can be had the
  bytes go to frame 0 and are counted as copied (`CopyoutWithoutPages`).
- A page asked for beyond the quota is lost (`OverQuotaLosesAPage`), so that quotas can come to exceed the
  free pages.  A request for consecutive pages within quota and larger than what is left then succeeds and
  maps frames past the end of the region (`BlockPastTheRegion`).  `OverrunIff` says exactly when the
  invariant survives such a request: `SurvivesBelowTop` puts it in plain terms.
- `unmap_page` elsewhere than at the base of a super page leaves the pages before mapped and clears what
  follows: `SuperUnmapClears`, and `SuperUnmapRestoresIff` for the base being the only place to call it.
- `pmem_init` excludes a page that starts exactly where a usable row starts:
  `PageAtRowStartIsLeftOut`.

## Model

| member | source | states |
|---|---|---|
| AllocTable.LowestFree | kern/pmm/MATOp/MATOp.c:24-37 | the page returned is free, normal and in the user range and every lower one is not free; 0 exactly when none is free |
| AllocTable.PallocFreePages | kern/pmm/MATOp/MATOp.c:24-37 | `palloc` takes exactly one page out of the set of free pages, or changes nothing when there is none; no page changes class |
| AllocTable.MarkedCount | kern/pmm/MATOp/MATOp.c:39-74 | how many pages one consecutive call marks: the request when it fits below the top, never more than the rest of the range |
| AllocTable.ConsecutivePallocExact | kern/pmm/MATOp/MATOp.c:39-74 | for n >= 1 it returns the page `palloc` would, 0 iff none is free, and agrees with a full search for the lowest free run iff the lowest free page starts one |
| AllocTable.NoPagesRequested | kern/pmm/MATOp/MATOp.c:39-74 | a request for no pages answers the first page of the user range and takes nothing |
| AllocTable.FragmentedTableHandsOutTakenPage | kern/pmm/MATOp/MATOp.c:47-66 | a free page followed by a taken one: a request for two pages hands the taken page out again |
| AllocTable.FreedNeighboursCoalesce | kern/pmm/MATOp/MATOp.c:39-95 | two adjacent blocks taken from the lowest run and freed restore the table and are reallocated as one |
| PageAllocator.Allocator.Palloc | kern/pmm/MATOp/MATOp.c:24-37 | the scanning loop does to the array what the specification does to the table |
| PageAllocator.Allocator.ConsecutivePalloc | kern/pmm/MATOp/MATOp.c:39-74 | the loop over i, end and cnt terminates on every table and equals the specification |
| PageAllocator.Allocator.Pfree | kern/pmm/MATOp/MATOp.c:84-88 | clears the flag of one page and changes nothing else |
| PageAllocator.Allocator.ConsecutivePfree | kern/pmm/MATOp/MATOp.c:90-95 | clears the flags of exactly the given range |
| PageAllocator.Allocator.SetPerm | kern/pmm/MATIntro/MATIntro.c:63-68 | sets the class of one page and its flag to unallocated |
| Containers.KctxNewForm | kern/thread/PKCtxNew/PKCtxNew.c:18-31 | under the invariant no conversion wraps: a checked split succeeds iff there is a child slot and the quota fits |
| Containers.KctxNewGives | kern/pmm/MContainer/MContainer.c:120-150 | a checked split succeeds iff there is a child slot and the quota fits; the child then has that quota, usage 0 and this parent, the parent one more child and its usage grown by the quota, and no other container or page changes; otherwise nothing changes |
| Containers.KctxNewKeeps | kern/pmm/MContainer/MContainer.c:120-150 | a checked split returns an id not in use, keeps the tree and the quotas, and loses nothing |
| Containers.ForestIds | kern/pmm/MContainer/MContainer.c:120-150 | used ids other than 0 are exactly 3p+1+k for a used p and k < nchildren[p], and parent is (c-1)/3 |
| Containers.ForkQuotaAlwaysFits | kern/proc/PProc/PProc.c:54-58 | fork assigns half of what is left, which always passes the quota check |
| Containers.AllocKeeps | kern/pmm/MContainer/MContainer.c:157-172 | served iff under quota and a page is free; a page is lost iff one is free and the container is not under quota; the invariant holds |
| Containers.FreeKeeps | kern/pmm/MContainer/MContainer.c:199-208 | freeing a page handed out gives exactly that page back and keeps the invariant |
| Containers.FreeWithoutUsage | kern/pmm/MContainer/MContainer.c:199-208 | a container that has nothing in use frees nothing |
| Containers.AllocFreeRoundTrip | kern/pmm/MContainer/MContainer.c:157-208 | a page allocated and freed again leaves table and containers as they were |
| Containers.BlockRoundTrip | kern/pmm/MContainer/MContainer.c:174-216 | a block allocated and freed again restores the containers, and the table iff none of its pages was allocated before |
| Containers.UnderQuotaIsServed | kern/pmm/MContainer/MContainer.c:157-172 | while nothing was lost, a container gets a page iff it is under quota |
| ContainerTable.CountIsFreePages | kern/pmm/MContainer/MContainer.c:36-48 | the counting loop over pages counts exactly the free normal pages |
| ContainerTable.ContainerArray.Init | kern/pmm/MContainer/MContainer.c:20-53 | the root container holds every free page as quota |
| ContainerTable.ContainerArray.CanConsume | kern/pmm/MContainer/MContainer.c:101-112 | the quota check as written, with its unsigned comparison |
| ContainerTable.ContainerArray.Split | kern/pmm/MContainer/MContainer.c:120-150 | the array after a split, or unchanged with NUM_IDS when there is no child slot |
| ContainerTable.ContainerArray.KctxNew | kern/thread/PKCtxNew/PKCtxNew.c:18-31 | quota check before split, on the array |
| ContainerTable.ContainerArray.Alloc | kern/pmm/MContainer/MContainer.c:157-172 | the array and the allocation table after `container_alloc` |
| ContainerTable.ContainerArray.ConsecutiveAlloc | kern/pmm/MContainer/MContainer.c:174-196 | the array and the table after `container_consecutive_alloc` |
| ContainerTable.ContainerArray.Free | kern/pmm/MContainer/MContainer.c:199-208 | the array and the table after `container_free` |
| ContainerTable.ContainerArray.ConsecutiveFree | kern/pmm/MContainer/MContainer.c:210-216 | the array and the table after `container_consecutive_free` |
| Ledger.Conservation | kern/pmm/MContainer/MContainer.c:120-208 | over every run of checked splits, single allocations and owner frees: what all containers may still ask for equals free pages plus lost pages; usage = own pages + quotas given to children; the tree shape holds |
| Ledger.SpawnGives | kern/pmm/MContainer/MContainer.c:120-150 | the split of a run gives the child the quota asked for, charged to the parent, iff slot and quota allow it |
| Ledger.FreeReturns | kern/pmm/MContainer/MContainer.c:199-208 | a page freed by its owner in a run is free again and the only one that is, and its owner may ask for one more |
| Ledger.UnderQuotaAlwaysServed | kern/pmm/MContainer/MContainer.c:157-172 | in every such run without over-quota calls, a container gets a page iff it is under quota |
| Ledger.PrefixRun | kern/pmm/MContainer/MContainer.c:157-196 | over every free-less run without over-quota page requests on one contiguous region, blocks served or refused, the pages handed out stay a prefix of the region and the books balance |
| Ledger.RefusedBlock | kern/pmm/MContainer/MContainer.c:174-182 | a block asked for beyond the quota changes nothing |
| Ledger.BlocksNeverOverlap | kern/pmm/MContainer/MContainer.c:174-196 | after any such run from boot, a within-quota consecutive allocation returns len consecutive pages none of which was ever handed out |
| Ledger.BootInv | kern/pmm/MContainer/MContainer.c:20-53 | the state after `container_init` satisfies the invariant with nothing lost |
| Words.EntryFields | kern/vmm/MPTIntro/MPTIntro.c:119-132 | packing a page index and 12 permission bits into an entry loses neither |
| Words.SetByteGet | kern/vmm/MPTFork/MPTFork.c:118-125 | a one-byte store changes that byte of the word it falls in and no other |
| Words.EntryMasks | kern/vmm/MPTIntro/MPTIntro.c:105-132 | the masks 0xFFF and 0xFFFFF000 and the shift by 12, bit by bit, are the permissions and the frame of an entry |
| Words.BitTests | kern/vmm/MPTFork/MPTFork.c:15-38 | testing P, W, U, P_SUPER or COW with a mask, bit by bit, is the predicate of the model |
| Words.WithSuper | kern/vmm/MPTNew/MPTNew.c:65 | adding P_SUPER sets bit 9 and keeps every other bit, P, W, U and COW among them |
| Mapping.MaskAndShift | kern/vmm/MPTOp/MPTOp.c:10-24 | the masks and shifts of the code, bit by bit, give the directory and table index of an address |
| PageTables.CopyUpToEnd | kern/vmm/MPTFork/MPTFork.c:118-125 | copying 4096 bytes one by one makes the page equal to its source |
| PageTables.AllocFrameTables | kern/vmm/MPTComm/MPTComm.c:44-55 | a page just allocated is zero and used by no page structure; the table invariant holds |
| PageTables.InstallTables | kern/vmm/MPTComm/MPTComm.c:47-53 | an uncleared fresh page becomes a page table and the table invariant holds |
| PageTables.InstallEnts | kern/vmm/MPTComm/MPTComm.c:47-53 | and no process sees a different entry anywhere |
| PageTables.WriteEnts | kern/vmm/MPTIntro/MPTIntro.c:119-158 | writing one page-table entry changes the entry of one page of one process |
| PageTables.WriteTables | kern/vmm/MPTIntro/MPTIntro.c:119-158 | and keeps the table invariant, identity tables included |
| PageTables.WriteFrames | kern/vmm/MPTIntro/MPTIntro.c:119-158 | a legal entry keeps frames exclusive, injective and apart from tables |
| PageTables.FrameWriteKeeps | kern/vmm/MPTFork/MPTFork.c:118-125 | writing the contents of a data frame keeps every invariant |
| Mapping.SplitIsBijection | kern/vmm/MPTOp/MPTOp.c:10-60 | directory index, table index and offset determine the address and conversely |
| Mapping.FlatIdentity | kern/vmm/MPTOp/MPTOp.c:75-100 | outside the user pages of processes 1 to 63 every page but the last maps to itself: P, W and G for kernel pages, P and W for user pages of process 0 |
| Mapping.OutOfRangeIgnored | kern/vmm/MPTIntro/MPTIntro.c:47-158 | for process or table indices out of range the getters answer 0 and the setters change nothing |
| Mapping.MapPageUpdatesOnePoint | kern/vmm/MPTKern/MPTKern.c:34-50 | a successful `map_page` updates one point of one process's flat map even when it allocates a table, and returns the directory entry: the frame of that table with P, W and U; it fails iff there is no table and no page for one, and then changes no point |
| Mapping.MapLoopFlat | kern/vmm/MPTKern/MPTKern.c:52-78 | `map_consecutive_page`, complete or stopped, maps exactly the pages it counted to consecutive frames, across any number of tables |
| PageDemand.BlockReturns | kern/vmm/MPTKern/MPTKern.c:52-78 | `map_consecutive_page` fails iff it did not map every page, and otherwise returns the directory entry of the first: the frame of its table with P, W and U |
| PageDemand.AllocPageReturns | kern/vmm/MPTNew/MPTNew.c:16-31 | `alloc_page` that succeeds returns the directory entry: the frame of the table with P, W and U |
| PageDemand.BlockFlat | kern/vmm/MPTNew/MPTNew.c:33-48 | the flat map after a block request the container grants: the pages counted have consecutive frames from the one answered, with the permissions asked for, and nothing else changed; what it returns |
| PageDemand.SuperReturns | kern/vmm/MPTNew/MPTNew.c:50-73 | a super page is had iff its 1024 pages are granted and all could be mapped; the call then returns the directory entry of the first |
| Mapping.RefusedBlockFails | kern/vmm/MPTNew/MPTNew.c:33-48 | a block the container refuses maps nothing and returns the magic number |
| Mapping.UnmapLoopFlat | kern/vmm/MPTKern/MPTKern.c:118-136 | `unmap_consecutive_page` clears exactly the pages it counted and stops at the first missing one |
| Mapping.MapThenUnmapRestores | kern/vmm/MPTKern/MPTKern.c:52-136 | on an unmapped range, mapping and unmapping any length restores the flat map of every process |
| Mapping.ScanStopsAtOnceOrNever | kern/vmm/MPTKern/MPTKern.c:104-108 | the backward scan of `unmap_page` stops in its first round, where it started, or is running after every number of rounds |
| Mapping.UnmapIsLimit | kern/vmm/MPTKern/MPTKern.c:90-116 | the closed form used elsewhere is what the call does within any number of rounds, or never |
| Mapping.UnmapHangsIff | kern/vmm/MPTKern/MPTKern.c:90-116 | the call is still scanning after every number of rounds iff the page before holds the same super-page entry |
| Mapping.UnmapReturns | kern/vmm/MPTKern/MPTKern.c:90-116 | the call returns after one round of its scan where frames within a process are distinct |
| Mapping.UnmapReturnsEntry | kern/vmm/MPTKern/MPTKern.c:90-116 | a call that returns returns the entry the page had, common or super |
| Mapping.SuperThenUnmapRestores | kern/vmm/MPTNew/MPTNew.c:50-73 | a super page mapped into an unmapped range is removed by one `unmap_page` at its base, which returns and restores the flat map |
| Mapping.SuperPermissions | kern/vmm/MPTNew/MPTNew.c:50-73 | each of the 1024 entries of a super page has its own consecutive frame, P_SUPER and every bit of the permissions asked for |
| Mapping.SuperUnmapRestoresIff | kern/vmm/MPTKern/MPTKern.c:102-110 | at page k of a super page the call returns, and restores the flat map iff k is 0 |
| Mapping.SuperUnmapClears | kern/vmm/MPTKern/MPTKern.c:118-136 | at page k it clears the rest of the super page and whatever is mapped after it without a gap, up to 1024 pages, and nothing else |
| PageStructure.PagedMemory.IdptblInit | kern/vmm/MPTOp/MPTOp.c:75-100 | the loop fills the identity tables for every page but the last and touches no other frame |
| PageStructure.PagedMemory.PdirInit | kern/vmm/MPTComm/MPTComm.c:10-35 | the nested loop points kernel slots at the identity tables and empties user slots |
| PageStructure.PagedMemory.PdirInitKern | kern/vmm/MPTKern/MPTKern.c:10-24 | process 0 gets the identity everywhere; no process has user tables |
| PageStructure.PagedMemory.PagingInit | kern/vmm/MPTKern/MPTKern.c:10-24 | paging initialization establishes the whole invariant and the flat map of every process |
| PageStructure.BootPaging | kern/vmm/MPTKern/MPTKern.c:10-24 | the value-level form of the same statement |
| PageStructure.PagedMemory.GetPdirEntry | kern/vmm/MPTIntro/MPTIntro.c:47-59 | reads the directory entry, 0 for indices out of range |
| PageStructure.PagedMemory.SetPdirEntry | kern/vmm/MPTIntro/MPTIntro.c:64-75 | writes one directory entry with P, W and U and nothing else |
| PageStructure.PagedMemory.SetPdirEntryIdentity | kern/vmm/MPTIntro/MPTIntro.c:81-89 | points one directory slot at its identity table |
| PageStructure.PagedMemory.RmvPdirEntry | kern/vmm/MPTIntro/MPTIntro.c:93-101 | clears one directory entry and nothing else |
| PageStructure.PagedMemory.GetPtblEntry | kern/vmm/MPTIntro/MPTIntro.c:105-115 | reads the entry through the frame in the directory |
| PageStructure.PagedMemory.SetPtblEntry | kern/vmm/MPTIntro/MPTIntro.c:119-132 | writes one word of the frame the directory names and nothing else |
| PageStructure.PagedMemory.SetPtblEntryIdentity | kern/vmm/MPTIntro/MPTIntro.c:136-145 | writes one word of an identity table; indices of 1024 and above change nothing |
| PageStructure.PagedMemory.RmvPtblEntry | kern/vmm/MPTIntro/MPTIntro.c:148-158 | clears one word of the frame the directory names |
| PageStructure.PagedMemory.GetPtblEntryByVa | kern/vmm/MPTOp/MPTOp.c:10-24 | the entry of an address, 0 unless directory and table entries are present |
| PageStructure.PagedMemory.GetPdirEntryByVa | kern/vmm/MPTOp/MPTOp.c:27-34 | the directory entry of an address, 0 unless present |
| PageStructure.PagedMemory.EnsureTable | kern/vmm/MPTComm/MPTComm.c:44-55 | `alloc_ptbl` where the directory entry is missing; false iff it fails |
| PageStructure.PagedMemory.MapPage | kern/vmm/MPTKern/MPTKern.c:34-50 | the arrays after `map_page` are the specified state |
| PageStructure.PagedMemory.MapConsecutivePage | kern/vmm/MPTKern/MPTKern.c:52-78 | the loop equals the recursive specification, failure included |
| PageStructure.PagedMemory.UnmapConsecutivePage | kern/vmm/MPTKern/MPTKern.c:118-136 | the loop equals the recursive specification, failure included |
| PageStructure.PagedMemory.UnmapPage | kern/vmm/MPTKern/MPTKern.c:90-116 | common and super branches; None if the scan has not ended after the given number of rounds |
| PageStructure.PagedMemory.ScanBack | kern/vmm/MPTKern/MPTKern.c:104-108 | the scan loop, round by round |
| PageStructure.PagedMemory.AllocPage | kern/vmm/MPTNew/MPTNew.c:16-31 | container, directory and table after `alloc_page` |
| PageStructure.PagedMemory.AllocConsecutivePage | kern/vmm/MPTNew/MPTNew.c:33-48 | the same for a block of pages |
| PageStructure.PagedMemory.AllocSuperPage | kern/vmm/MPTNew/MPTNew.c:50-73 | the same for 1024 pages marked P_SUPER |
| PageStructure.PagedMemory.VmmCopy | kern/vmm/MPTFork/MPTFork.c:5-54 | the outer loop, stopping where no page can be had, equals the specification |
| PageStructure.PagedMemory.CopyTable | kern/vmm/MPTFork/MPTFork.c:29-50 | the inner loop rewriting both tables entry by entry equals the specification |
| PageStructure.PagedMemory.CopyBytes | kern/vmm/MPTFork/MPTFork.c:118-125 | the byte loop makes the target frame equal to the source frame |
| PageStructure.PagedMemory.CopyOnWrite | kern/vmm/MPTFork/MPTFork.c:98-127 | the common-page branch equals the specification |
| PageStructure.PagedMemory.PageFault | kern/trap/TTrapHandler/TTrapHandler.c:52-92 | the choice between copy-on-write, panic and demand allocation, but for copy-on-write of a super page |
| PageStructure.PagedMemory.ProcFork | kern/proc/PProc/PProc.c:47-77 | quota halving, split and address-space copy |
| Fork.CopyEntryKeeps | kern/vmm/MPTFork/MPTFork.c:31-49 | copying one entry makes it P, U and COW in parent and child and changes no other entry, keeps all invariants, and is hidden from everybody but the child |
| Fork.CopyEntryEnts | kern/vmm/MPTFork/MPTFork.c:31-49 | the same from the table invariant alone, super pages included: the entry of parent and child becomes P, U, COW and keeps frame and P_SUPER; no other entry changes |
| Fork.VmmCopyProtects | kern/vmm/MPTFork/MPTFork.c:5-54 | whatever the parent has mapped, super pages included: every page it had below the point reached is present, user, copy-on-write and not writable in parent and child, on the frame it had, P_SUPER iff it was; every other entry of every process is unchanged |
| Fork.CopyDirsKeeps | kern/vmm/MPTFork/MPTFork.c:12-51 | complete or stopped midway, the copy leaves exactly the parent's pages up to where it stopped copy-on-write in both processes, every other entry as it was, and keeps all invariants |
| Fork.VmmCopyIsEagerCopy | kern/vmm/MPTFork/MPTFork.c:5-54 | the child sees exactly what the parent saw below the point reached, nobody else sees a difference, and the entries of both are copy-on-write there and unchanged elsewhere |
| Fork.CopyDirsCompletes | kern/vmm/MPTFork/MPTFork.c:12-25 | while nothing was lost the copy completes iff the child's quota covers the parent's page tables |
| Fork.CopyOnWriteIsInvisible | kern/vmm/MPTFork/MPTFork.c:98-127 | no process sees a change; if a page could be had the entry now has P, W and U and nothing else |
| Fork.AllocPageIsZeroFill | kern/vmm/MPTNew/MPTNew.c:16-31 | success shows a zero page with the given permissions, mapped nowhere else, at that address of that process and changes no other; failure shows nothing |
| PageDemand.AllocPageCost | kern/vmm/MPTNew/MPTNew.c:16-31 | `alloc_page` succeeds iff the process can get the page and, if missing, its page table (the smaller of its quota left and the free pages covers them), and takes just these; after a failure it can get none |
| PageDemand.MapLoopCounts | kern/vmm/MPTKern/MPTKern.c:52-78 | the mapping loop maps exactly the pages whose page table is there or can be had; stopping for want of quota while a page is free loses that page |
| PageDemand.DemandIs | kern/vmm/MPTComm/MPTComm.c:44-55 | mapping a list of pages in turn costs one page each and one for each page table they lack |
| CowRefinement.RunRefines | kern/vmm/MPTFork/MPTFork.c:5-127 | over every run, stores and faults at any address included, without a fault on the last page that gets a page: every process sees the memory the private-memory machine gives it, copy-on-write is a stutter step, and all invariants hold |
| CowRefinement.InvThroughoutIff | kern/trap/TTrapHandler/TTrapHandler.c:52-92 | the invariant holds in every state of a run iff the run has no fault on the last page that gets a page |
| CowRefinement.LastPageIsShared | kern/trap/TTrapHandler/TTrapHandler.c:82-91 | a user fault at 0xFFFFF000 that gets a page does not panic and leaves one frame writable by every two processes: the byte one stores there is the byte the other reads |
| CowRefinement.StoreIsPrivate | kern/vmm/MPTFork/MPTFork.c:5-127 | after any such run a store by one process, to whatever address, changes no other process's memory |
| CowRefinement.FaultEnablesStore | kern/trap/TTrapHandler/TTrapHandler.c:64-91 | a fault that does not panic lets the next store through, on a copy-on-write page as on a missing one, provided a page can be had |
| CowRefinement.FaultRefinesIff | kern/trap/TTrapHandler/TTrapHandler.c:52-92 | a fault the hardware raises, at whatever address, is a stutter or a zero fill of one page and keeps the invariant iff it is not on the last page or gets no page |
| CowRefinement.UnmapRefines | kern/vmm/MPTKern/MPTKern.c:90-116 | unmapping drops one page of one process |
| CowRefinement.ForkRefines | kern/proc/PProc/PProc.c:47-77 | fork copies the parent's memory to the child, below the point reached |
| ForkProgress.ForkPermissions | kern/vmm/MPTFork/MPTFork.c:31-49 | after a fork the pages the parent had below the point reached are P, U and COW on one frame in parent and child; the child has nothing else, and the parent's other entries are unchanged |
| ForkProgress.ForkProtects | kern/proc/PProc/PProc.c:47-77 | the same for a whole fork with super pages: protected on one frame in parent and child, the child has nothing else, nobody else changes |
| ForkProgress.LoadsAfterFork | kern/vmm/MPTFork/MPTFork.c:31-49 | what the parent could read before a fork it can read after it, and the child iff the copy got that far |
| ForkProgress.FaultPanicsIff | kern/trap/TTrapHandler/TTrapHandler.c:52-92 | for every error code: the handler panics iff the fault is a protection fault other than a write to a copy-on-write page, or a missing page or its table cannot be had |
| ForkProgress.WriteFault | kern/trap/TTrapHandler/TTrapHandler.c:64-76 | a write fault panics iff the page is not copy-on-write, and makes the store possible iff it is and a page can be had |
| ForkProgress.StoreAfterFork | kern/trap/TTrapHandler/TTrapHandler.c:64-76 | a store the parent could make before a fork is refused after it, faults without panic, and is then the write of the private machine, in parent and child alike |
| ForkProgress.ReadOnlyPageBecomesWritable | kern/vmm/MPTFork/MPTFork.c:44-49 | a write to a read-only page panics before a fork and goes through after it |
| ForkProgress.StorableAfterForkIff | kern/vmm/MPTFork/MPTFork.c:31-49 | a refused store becomes possible by a fork and one write fault iff a page can be had and the page was mapped below the point reached, or, in the parent, was copy-on-write already |
| ForkProgress.StorableForeseen | kern/vmm/MPTFork/MPTFork.c:31-49 | the same with the point reached told from the state before the fork |
| ForkProgress.ForkStopsAt | kern/proc/PProc/PProc.c:54-66 | a fork that finds a child slot stops at the parent's first page table beyond half its remaining quota, or beyond the free pages if they are fewer |
| ForkProgress.StopAtCounts | kern/vmm/MPTFork/MPTFork.c:12-25 | by then as many page tables were passed as that allows, and one more is there iff it ran out |
| ForkProgress.CopyoutAfterForkIsSeen | kern/lib/pmap.c:53-85 | a `pt_copyout` to the parent after a fork is seen by the child |
| CowRefinement.ForkCompletes | kern/proc/PProc/PProc.c:54-66 | while nothing was lost, a fork that finds a child slot copies everything iff the parent has no more page tables than half its remaining quota |
| CowRefinement.CreateRefines | kern/proc/PProc/PProc.c:24-30 | creating a process changes nobody's memory and keeps all invariants |
| CowRefinement.CreateGives | kern/proc/PProc/PProc.c:24-30 | and the process gets the quota asked for, charged to its creator, iff slot and quota allow it |
| CowRefinement.MapNewPermissions | kern/vmm/MPTNew/MPTNew.c:16-31 | a page mapped for a process has exactly the permissions asked for, and shows nothing without P |
| CowRefinement.KernelMapStable | kern/vmm/MPTIntro/MPTIntro.c:81-145 | no such run changes a kernel mapping below the last page or a mapping of process 0: they stay the identity, with P, W and G or P and W |
| BlockMapping.BlockBooksIff | kern/pmm/MContainer/MContainer.c:174-196 | while nothing was lost a block request keeps the allocator's books iff it is refused or the lowest free page starts a block that fits |
| BlockMapping.MapLoopFills | kern/vmm/MPTKern/MPTKern.c:52-78 | the mapping loop, complete or stopped for want of a page table, is as many zero fills as it counts and keeps the page structures sound, provided it gets no further than the frames that are spare |
| BlockMapping.BlockRefines | kern/vmm/MPTNew/MPTNew.c:33-48 | on any table, `alloc_consecutive_page` that is refused or fits is a row of zero fills and keeps all invariants |
| BlockMapping.BlockCompleteIff | kern/vmm/MPTNew/MPTNew.c:33-48 | such a block is mapped completely iff the process can get its pages and the page tables they lack |
| BlockOverrun.OverQuotaLosesAPage | kern/pmm/MContainer/MContainer.c:162-171 | a page asked for beyond the quota while one is free: the call fails, a page is lost, no invariant breaks |
| BlockOverrun.BlockAlloc | kern/pmm/MATOp/MATOp.c:39-74 | what a within-quota block takes from a region handed out from the bottom up, its wrap at the top of the user range included |
| BlockOverrun.OverrunIff | kern/vmm/MPTNew/MPTNew.c:33-48 | a within-quota block larger than what is free keeps the invariant iff the pages it reaches are among those it took and the books still cover the quota, and is then a row of zero fills |
| BlockOverrun.SurvivesBelowTop | kern/vmm/MPTKern/MPTKern.c:52-78 | below the top of the user range that means: a missing page table stops the mapping before the pages run out |
| BlockOverrun.BlockPastTheRegion | kern/vmm/MPTNew/MPTNew.c:33-48 | with the page tables in place such a block succeeds and maps, writable, a frame past the end of the region |
| KernelRuns.KernelStepIff | kern/trap/TSyscall/TSyscall.c:168-205 | on one region: a launch, a block mapping or an event of the runs above keeps the invariant iff it meets its condition, and then has its effect on the private machine |
| KernelRuns.BlockPermissions | kern/vmm/MPTNew/MPTNew.c:33-48 | the pages a block maps have exactly the permissions asked for |
| KernelRuns.KernelRunIff | kern/trap/TSyscall/TSyscall.c:168-205 | over any such run the invariant holds throughout iff every event meets its condition, and then every process has the memory of the private machine; a launched process has the memory its executable determines |
| KernelRuns.KernelRunRefines | kern/trap/TSyscall/TSyscall.c:168-205 | whatever the layout of memory, runs in which blocks are refused or fit give every process the memory of the private machine |
| KernelRuns.NoLossNoOverrun | kern/pmm/MContainer/MContainer.c:174-196 | while no page was lost no block within quota is larger than what is free |
| KernelRuns.KernelRunFromBoot | kern/trap/TSyscall/TSyscall.c:168-205 | the same from boot on one contiguous region, starting with empty memories, both directions |
| ThreadQueues.EnqueueRep | kern/thread/PTQueueInit/PTQueueInit.c:28-47 | appending an unqueued thread: the pools represent the queues with it at the end, still disjoint |
| ThreadQueues.DequeueRep | kern/thread/PTQueueInit/PTQueueInit.c:54-82 | taking the head: the rest is represented and the thread is detached |
| ThreadQueues.UnlinkRep | kern/thread/PTQueueInit/PTQueueInit.c:110-131 | taking out any position: the rest is represented and the thread is detached |
| ThreadQueues.QueuePool.constructor | kern/thread/PTQueueInit/PTQueueInit.c:8-20 | every queue empty, every thread dead and detached |
| ThreadQueues.QueuePool.SetState | kern/thread/PTCBIntro/PTCBIntro.c:26-29 | one thread's state changes, no link does |
| ThreadQueues.QueuePool.Enqueue | kern/thread/PTQueueInit/PTQueueInit.c:28-47 | the queue gains the thread at its end; every other queue and every state is unchanged |
| ThreadQueues.QueuePool.Dequeue | kern/thread/PTQueueInit/PTQueueInit.c:54-82 | NUM_IDS on an empty queue, otherwise the head, which is then on no queue; the rest unchanged |
| ThreadQueues.QueuePool.Find | kern/thread/PTQueueInit/PTQueueInit.c:91-104 | the walk terminates and finds the thread iff it is on the queue |
| ThreadQueues.QueuePool.Remove | kern/thread/PTQueueInit/PTQueueInit.c:88-132 | deletes the thread if present, otherwise does nothing; every other queue unchanged |
| Scheduler.SpawnKeeps | kern/thread/PThread/PThread.c:18-29 | a spawn succeeds iff there is a child slot and the quota fits; the child was dead, goes to the end of the ready queue and has that quota, usage 0 and this parent, who is charged; no other container changes; refused, nothing changes; the invariant holds |
| Scheduler.YieldKeeps | kern/thread/PThread/PThread.c:40-56 | the head of the ready queue runs and the current thread goes to its end, or nothing changes where it is empty; no container changes; the invariant holds |
| Scheduler.RunsAfterExactly | kern/thread/PThread/PThread.c:18-56 | over every run of spawns and yields, a thread at ready position k runs after exactly k+1 yields and not before |
| Scheduler.BootInv | kern/thread/PThread/PThread.c:6-11 | the state after `thread_init` satisfies the scheduler invariant |
| Scheduler.Threads.constructor | kern/thread/PThread/PThread.c:6-11 | `thread_init` on the arrays: thread 0 runs, no other exists |
| Scheduler.Threads.Spawn | kern/thread/PThread/PThread.c:18-29 | queues, states and containers after a spawn are the specified state |
| Scheduler.Threads.Yield | kern/thread/PThread/PThread.c:40-56 | queues, states and current id after a yield are the specified state |
| MemoryMap.InsertAllIsStableSort | kern/dev/mboot.c:55-79 | the list after all inserts is sorted by start and keeps the order of entries with equal starts |
| MemoryMap.MergeSorted | kern/dev/mboot.c:81-99 | merging keeps the list sorted |
| MemoryMap.MergeHead | kern/dev/mboot.c:90-99 | the head of a sorted list takes in its neighbour iff both have one type and leave no gap, touching included, and reaches to the larger end; otherwise it stays as it is |
| MemoryMap.TouchingEntriesJoin | kern/dev/mboot.c:81-99 | two E820 entries of one type that touch become one row |
| MemoryMap.OfTypeIs | kern/dev/mboot.c:101-113 | the list of a type has the rows of that type and no others |
| MemoryMap.OfTypeSorted | kern/dev/mboot.c:101-113 | sorted, as the whole list is |
| MemoryMap.MergeCovers | kern/dev/mboot.c:81-99 | merging keeps exactly the addresses covered, type by type |
| MemoryMap.ClipIs | kern/dev/mboot.c:154-164 | the row kept of an entry is the entry's own 64-bit range below the last byte of 4 GB |
| MemoryMap.BuiltCovers | kern/dev/mboot.c:134-184 | the finished map covers an address with a type iff some E820 entry of that type reports it |
| PhysicalMap.PhysMap.InsertRow | kern/dev/mboot.c:55-79 | the linked list after an insert is the sorted insertion; false iff the 128 slots are used up |
| PhysicalMap.PhysMap.MergeRows | kern/dev/mboot.c:81-99 | the in-place merge loop equals the specification, merging a slot with at most one neighbour per visit |
| PhysicalMap.PhysMap.SplitByType | kern/dev/mboot.c:101-113 | each type list is the merged list filtered by that type, in order; false iff some type is not 1 to 4 |
| PhysicalMap.PhysMap.Init | kern/dev/mboot.c:134-184 | from the E820 table to the finished map; false exactly where the code panics |
| PhysicalMap.PhysMap.GetRow | kern/dev/mboot.c:191-240 | the start, end and usability of row idx, zeros past the end |
| PhysicalMap.PhysMap.Size | kern/dev/mboot.c:186-189 | the number of rows of the finished map |
| BootClassify.PmemInit | kern/pmm/MATInit/MATInit.c:47-115 | the loops give every page its class |
| BootClassify.NormalPages | kern/pmm/MATInit/MATInit.c:103-115 | a page is normal iff it lies in the user range and strictly after the start of, and wholly inside, a usable row |
| BootClassify.PageClasses | kern/pmm/MATInit/MATInit.c:91-115 | the class of every page number: 2, 1 or 0, and no page is allocated |
| BootClassify.TouchingRamIsUsable | kern/pmm/MATInit/MATInit.c:103-115 | two RAM entries that touch lose no page where they meet |
| BootClassify.PageAtRowStartIsLeftOut | kern/pmm/MATInit/MATInit.c:108-114 | a page that starts where a usable row starts is wholly RAM and is left out |
| BootClassify.EveryByteIsRam | kern/pmm/MATInit/MATInit.c:47-115 | every byte of every page the allocator can return is covered by a RAM entry of the E820 table |
| BootClassify.BootMemory | kern/pmm/MContainer/MContainer.c:20-53 | from the E820 table to a root quota equal to the number of usable pages, with the books balanced; false exactly where the code panics |
| Boot.BootKernel | kern/vmm/MPTKern/MPTKern.c:10-24 | boot on any E820 table ends in a state where all invariants hold, no page is lost and the address spaces are the identity or empty, or panics exactly on too many entries or an unknown type |
| Boot.EveryRunFromBoot | kern/vmm/MPTFork/MPTFork.c:5-127 | every run after boot without a fault on the last page that gets a page refines the private-memory machine started with empty memories |
| UserCopy.CopyLoopIsByteCopy | kern/lib/pmap.c:53-112 | whether or not pages are shared or can be had: every mapped page of the range holds the bytes of the buffer, no other page of the process changes, another process sees the change exactly in the pages that have a frame of the range, and all invariants hold |
| CopyServed.CopyoutThenCopyin | kern/lib/pmap.c:19-85 | for a range whose pages are mapped or can be had, `pt_copyout` is a byte-by-byte copy that returns len, and `pt_copyin` then gives the buffer back and changes nothing |
| CopyServed.MemsetFills | kern/lib/pmap.c:87-112 | `pt_memset` sets every byte of a range that can be served to c and leaves the pages outside it alone |
| CopyServed.OutOfRangeIsRefused | kern/lib/pmap.c:55-59 | a call outside the user range, or with a kernel buffer reaching past it, copies nothing and returns 0 |
| CopyServed.PrivateCopyIsPrivate | kern/lib/pmap.c:53-85 | where no page of the range is shared nobody else sees the copy |
| CopyServed.ReadLoopIsByteRead | kern/lib/pmap.c:19-51 | on a mapped range `pt_copyin` reads what the process sees and changes nothing |
| CopyServed.ReadLoopTotal | kern/lib/pmap.c:19-51 | `pt_copyin` of any user range: every byte read from a page that ends up mapped is what the process saw there, zero if the page is new; new pages are writable and nobody else's; no other entry and no byte anybody sees changes; all invariants hold |
| CopyServed.QuotaServesReadIff | kern/lib/pmap.c:29-35 | it leaves every page of the range mapped iff the process can get the pages it misses and the page tables they lack |
| CopyServed.CopyOkIff | kern/lib/pmap.c:63-69 | every page is mapped or can be had when the copy gets to it iff the copy leaves every page of the range mapped |
| CopyServed.QuotaServesCopyIff | kern/lib/pmap.c:63-69 | that is so iff the process can get the missing pages of the range and the page tables they lack |
| CopyServed.CopyoutWithoutPages | kern/lib/pmap.c:63-84 | to pages a process does not have and cannot get, `pt_copyout` returns len and no process sees any byte |
| CopyServed.WriteStaysHomeIff | kern/lib/pmap.c:71-76 | a kernel write to a mapped page is seen in that page only iff no other page shares the frame or nothing changes |
| UserCopy.Chunk | kern/lib/pmap.c:73-74 | one round handles at least one byte, at most what is left, and stays inside the page |
| ProgramLoading.PtCopyout | kern/lib/pmap.c:53-85 | the method equals the specification, range checks and count included |
| ProgramLoading.WriteLoop | kern/lib/pmap.c:61-84 | the loop updating len, uva, kva and copied equals the recursive form |
| ProgramLoading.PtCopyin | kern/lib/pmap.c:19-51 | fills the kernel buffer with the bytes read and leaves its rest alone |
| ProgramLoading.PtMemset | kern/lib/pmap.c:87-112 | sets len bytes to c as a copy of len equal bytes would |
| ElfLoad.RoundUp | kern/lib/types.c:13-21 | the least page boundary at or above the address, unless the addition wraps |
| ElfLoad.SegPerm | kern/lib/elf.c:54-56 | P and U always, W iff the segment has the write flag, never COW or P_SUPER |
| ElfLoad.LoadPageHolds | kern/lib/elf.c:59-71 | the three cases of the loop body come to one: the page holds its part of the image, with the permissions of the segment |
| ElfLoad.LoadPagesLoads | kern/lib/elf.c:48-73 | the page loop loads exactly the pages of the segment |
| ElfLoad.LoadBuildsImage | kern/lib/elf.c:42-73 | page-disjoint segments: every covered page holds its part of the image, may be read by the process, and written iff the write flag of its segment is set; no other page of any process changes contents or permissions; all invariants hold |
| ElfLoad.LoadedStores | kern/lib/elf.c:54-59 | a store of the process to its image is let through iff its segment has the write flag |
| ElfLoad.LoadedBytes | kern/lib/elf.c:42-73 | address by address: the file's byte in the file part, zero from there to the rounded-up end |
| ElfLoad.CreateThenLoad | kern/proc/PProc/PProc.c:24-33 | a process created with quota for the pages of the program and their page tables and loaded sees the image and nothing else, and no other process sees a difference |
| ElfLoad.LoadKeeps | kern/lib/elf.c:42-73 | whether or not its pages can be had, loading into a process that shares no page keeps all invariants and changes no other process's memory |
| ElfLoad.CreateThenLoadKeeps | kern/proc/PProc/PProc.c:24-33 | the same for a process just created |
| ElfLoad.QuotaServesLoadIff | kern/lib/elf.c:58-59 | every allocation succeeds iff the process can get the pages of the program and the page tables they lack |
| ProgramMemory.LoadPlaces | kern/lib/elf.c:42-73 | the loader builds the memory of the specification, whether or not segments overlap and whether or not pages run out: pages are placed in order while they can be had, and each holds its part of the image of the last segment that covers it |
| ProgramMemory.LaunchExact | kern/proc/PProc/PProc.c:24-33 | a new process gets exactly the memory its executable, its quota and the free pages determine, and no other process sees a difference |
| ProgramLoading.ElfLoadProgram | kern/lib/elf.c:42-73 | the loop over the program headers equals the specification |
| ProgramLoading.LoadPageLoop | kern/lib/elf.c:48-73 | the loop over the pages of a segment equals the specification |
| ProgramLoading.LoadOnePage | kern/lib/elf.c:59-71 | the loop body equals the specification |
| NumberText.Printed | user/lib/printfmt.c:19-34 | the length is the larger of the width and the number of digits |
| NumberText.PrintedChars | user/lib/printfmt.c:19-34 | pads up to the width, then the digits: the last is the remainder by the base, a figure or a small letter, and what is before it is the quotient printed one narrower |
| NumberText.Output.PrintNum | user/lib/printfmt.c:19-34 | the recursion and its padding loop print the number padded on the left to the width |
| NumberText.ParseLong | user/lib/string.c:93-137 | the loops of `strtol`, wrapping at every step, give the wrapped value of the digits and the position after them |
| NumberText.StrtolReads | user/lib/string.c:93-137 | blanks followed by plain digits are read to the end, with the value the digits denote |
| NumberText.StrtolSigned | user/lib/string.c:93-137 | a sign before the digits: + changes nothing, - negates the value |
| NumberText.StrtolHex | user/lib/string.c:107-110 | the prefix 0x is skipped in base 16 and chooses it in base 0 |
| NumberText.StrtolChoosesBase | user/lib/string.c:107-116 | in base 0 a leading 0 chooses base 8 and any other digit base 10 |
| NumberText.DigitValues | user/lib/string.c:118-128 | figures and letters of either case have the values 0 to 35 |
| NumberText.BlanksAre | user/lib/string.c:98-100 | spaces and tabs are skipped, and nothing else |
| NumberText.DigitsRead | user/lib/printfmt.c:32-33 | the digits printed denote the number, in every base from 2 to 16 |
| NumberText.PrintedReadsBack | user/lib/printfmt.c:19-34 | whatever is printed, padded with blanks or zeros to any width, reads back as the number (wrapped to 32 bits; itself below 2^31) and is consumed entirely |

## Left out

- The super-page branch of `copy_on_write`: it uses a page-directory entry as a page index; runs have no P_SUPER entries.
- Super pages as events of the runs: the invariant of the runs has no P_SUPER entries; their effect on the flat map is proved, and so is what a fork does to them (`VmmCopyProtects`, `ForkProtects`).
- Runs after an event that breaks the invariant: what the fault on the last page and the block past the region do is proved, nothing is claimed about what follows.
- KernelRunRefines: on memory of several regions blocks are required to be refused or to fit; the exact condition is proved for one contiguous region (`KernelRunIff`).
- BlockRefines: the same for one request.
- PageFault: copy-on-write of a super page is not modelled, being the branch named above.
- BlocksNeverOverlap: for runs from boot with one contiguous region and no frees; on other tables `ConsecutivePallocExact` is what holds.
- Conservation: runs without consecutive allocations, which on a fragmented table mark pages already handed out.
- FileBytes: bytes past the end of the executable read as zero, where the code would read whatever follows it; a well-formed executable never reaches them.
- The ELF header itself (magic number, section headers, entry point): the model starts from the program headers.
- Calls that panic return a flag in the model; the run theorems also cover going on afterwards.
- `free_ptbl`, `container_super_free` and the by-address removers of directory entries: nothing outside test code calls them.
- Kernel contexts, `kctx_switch`, trap frames and the saved user context: a switch is a change of the current id.
- The hand-off from the monitor to the first user thread, which leaves thread 0 marked running: scheduler runs start from `thread_init`.
- `mmap` arguments outside the user range, permissions of 4096 and above, and lengths that wrap.
- Ranges whose end wraps past 2^32 in `pt_copyin` and `pt_copyout`: the check as coded is modelled by `RangeOk`, the copy theorems are for ranges that do not wrap.
- The kernel buffer of a copy is a value or a separate array, so overlap with user frames is excluded.
- The TLB, caches and CR3.
- The xchg spinlock: mutual exclusion over its interleavings is easier than the rest.
- Device drivers, boot loader, assembly, console, `vprintfmt`, system call argument plumbing: I/O or plumbing with little to prove.

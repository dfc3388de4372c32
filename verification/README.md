# PML kernel: verified models of its memory management, extent trees and SHA-256

Dafny models of the parts of the PML kernel whose correctness is hardest to see
from the code, each with what it promises proved for every input and every run.

* **Copy-on-write address spaces** (`PageTree`, `PageEntry`, `EntryBits`, `CowSpec`,
  `CowFault`, `CowSteps`, `CowMap`, `CowRun`, `CowKernelHalf`, `CowLedger`, `CowProtect`, `CowShare`,
  `CowTally`, `CowKernel`).
  Four-level page tables live in a frame store beside a table of reference counts.
  Forks, page faults, user stores, mappings, unmappings, allocations and exits are
  steps of a machine. Every run of them shows every address space what a machine
  shows that copies all memory at each fork and decides each store by the
  permissions it keeps itself, and leaves the kernel half of every PML4T as it is. Counts are exact after every step, and what is
  allocated, given back or lost is booked in a ledger. `CowKernel` holds the kernel's
  own loops, proved to take those steps.
* **Page tables as a map** (`PageMap`). For one unshared tree, kernel half and
  large pages included, `vm_map_page`, `vm_unmap_page` and `vm_phys_addr` are a
  map from pages to frames over every run. A failed mapping changes no translation but
  in one case, whose exact condition is proved.
* **The boundary-tag heap** (`HeapLayout`, `KernelHeap`, `HeapRun`). Headers,
  data and tails are 16-byte units of raw memory. `malloc`, `realloc` and `free` keep
  memory exactly tiled, and the heap is a map from pointers to block contents.
* **The ext4 extent tree** (`ExtentTree`, `ExtentSearch`, `ExtentSplit`,
  `ExtentRekey`, `ExtentDisk`, `ExtentHandle`, `ExtentWalk`). A cursor over a B-tree: search,
  traversal, recursive node split with root growth, insertion on either side of the
  cursor and the repair of keys after it, each compared with the flat list of extents. Every
  node is kept in the block that the index entry above it names.
* **SHA-256** (`Words`, `Sha256`, `ShaConstants`). The streaming implementation, with a ring of sixteen
  words and a chunk buffer, against the definition in FIPS 180-4, with its
  constants from the roots of the primes and its word functions bit by bit.

`dafny verify dfyconfig.toml` checks everything.

## How to read it

Code that changes things in place is a class (`CowKernel.Kernel`,
`KernelHeap.Heap`, `ExtentHandle.Handle`, `Sha256.Context`) whose methods are proved against
functions on values; lemmas about those functions carry the results. What the
environment decides (the pages the allocator answers, whether a new thread's
identifier and stacks could be set up) is a parameter or a ghost result, and statements hold for every choice
of it. Reference counts are a multiset of frames, and an entry of a paging
structure is a record; `PageEntry` and `EntryBits` tie its updates to the kernel's bit expressions.

The invariant of the copy-on-write machine, `CowSpec.Inv`, says that the count of
every frame is the number of table paths and PML4Ts that reach it plus the
references the kernel holds itself, and that a frame which some path of
entries lets user code write is counted once. Of an address that can be read,
`CowSpec.MayWrite` says whether a store instruction there succeeds, at once or after
the page fault handler has run. `ExtentTree.Wf` asks of an extent
tree that keys increase, that the key of an index entry is the first key below it,
that extents do not overlap, and that no node is over its capacity; `ExtentDisk.Stored` that
each node below the root is in a block of its own, the one its index entry names, and that the
blocks the allocator has left are others.

## What the code does not do

* *Forks lose write protection.* thread_clone marks every user entry of the PML4T as
  copy-on-write, the handler marks every entry of a table it copies, and resolving
  an entry always grants write access. So after a fork both parent and child may write
  whatever they can read, also pages mapped read-only, as kernel/exec.c:123-148 and
  kernel/mman.c:359-385 map them. `CowProtect.ReadOnlyLost` is a run that shows it,
  `CowProtect.ForkUnprotects` the general fact, and `CowProtect.RunKeepsExactly` and
  `CowProtect.ForkKeepsRights` say exactly when permissions are kept; runs that map all
  user memory writable keep them (`CowProtect.WritableRunsKeepRights`).
* *Abandoned forks lose references.* When the stacks of a new thread cannot be had, the
  references that the clone has taken are not given back, nor is its thread-local PDPT, of
  which only what is below it is freed. `CowLedger.UserRunHeld` proves that references are
  lost exactly then, `CowLedger.AbandonedLeaks` that the PDPT always is, and
  `CowLedger.TreeEmpty` that more is exactly if the parent maps something.
* *Mapping writes shared tables.* vm_map_page and vm_unmap_page do not resolve
  copy-on-write entries. After a fork every table below the PML4T is shared, so that what
  one of the two spaces maps there the other reads (`CowShare.ForkShares`,
  `CowShare.IntrusionReached`). `CowShare.MapSeen` and `CowShare.UnmapSeen` say what every
  space reads, `CowShare.MapUnseenExactly` when others see nothing of it, and
  `CowTally.MapCountsExactly` and `CowTally.UnmapCountsExactly` when counts stay right.
* *A failed mapping can leave a large page.* With the size bit among its flags vm_map_page turns
  the entry of a new table into one of a large page (`PageMap.FailedMapKeeps`,
  `PageMap.MadeLargeExactly`).
* *Shrinking does not coalesce* (`HeapRun.ShrinkCoalesces`, `HeapRun.LaidCoalesced`), *requests near the end of size_t
  wrap around* (`KernelHeap.AlignUpCovers`), and *once physical memory has run out,
  alloc_page never succeeds again* (`CowKernel.Kernel.AllocPage`,
  `CowKernel.Kernel.AskAgain`).

## Model

| member | source | states |
|---|---|---|
| CowRun.RunRefinesEagerCopy | arch/x86_64/thread.c:275-300 | over every run of forks, faults, stores, mappings, unmappings, allocations, releases and exits the invariant holds, and each space reads, and may write, exactly what it does in a machine that copies at fork and decides stores by its own permissions; in that machine a fork makes the memory of parent and child writable |
| CowRun.ForkIsolation | arch/x86_64/page-fault.c:63-165 | whatever other spaces do and wherever faults occur, a space that does not store, map, unmap or exit itself goes on reading the same bytes |
| CowRun.FaultThenStore | arch/x86_64/page-fault.c:147-165 | when the handler returns to the faulting instruction at a readable address, the store is then permitted |
| CowRun.FaultRetries | arch/x86_64/page-fault.c:63-165 | with memory at hand the handler returns to the instruction at a readable address exactly if some entry of its path is copy-on-write |
| CowRun.MayWriteIs | arch/x86_64/page-fault.c:63-165 | what can be read may be written exactly if a store is permitted at once or some entry of the path is copy-on-write |
| CowRun.StoreDecided | arch/x86_64/page-fault.c:63-165 | a store instruction, with its page fault and retry, stores exactly where the space may write, unless the allocator fails |
| CowRun.StepInv | arch/x86_64/mm.c:484-497 | every single step keeps the invariant |
| CowRun.StepRefines | arch/x86_64/thread.c:275-300 | every single step changes the readable bytes of all spaces, and what they may write, as the eager machine does |
| CowLedger.RunLedger | arch/x86_64/mm.c:261-320 | conservation over every run: what the kernel holds changes by what it gains and spends, and every count is the occurrences plus what is held |
| CowLedger.RunAccounting | arch/x86_64/mm.c:261-320 | after every run a frame has count zero exactly if no tree, no list of PML4Ts and no held reference names it |
| CowLedger.StepHeld | arch/x86_64/thread.c:244-300 | each step changes what is held by exactly its entry in the ledger: nothing for faults, stores and exits, the thread-local PDPT for a completed fork, and for an abandoned one the lost PDPT and references to all of the parent's tree |
| CowLedger.UserRunHeld | arch/x86_64/thread.c:287-361 | over runs of forks, faults, stores and exits only the thread-local PDPTs of completed forks and the losses of abandoned ones are added to what is held, and something is lost exactly if a fork is abandoned after both its allocations |
| CowLedger.AbandonedLeaks | arch/x86_64/thread.c:352-360 | the thread-local PDPT of an abandoned fork stays counted though no tree and no list of PML4Ts names it |
| CowLedger.TreeEmpty | arch/x86_64/thread.c:287-296 | there are references to take exactly if some user entry of the PML4T is present |
| CowLedger.EverythingReturned | arch/x86_64/mm.c:484-497 | after such a run and the exit of every space only the PML4Ts, the thread-local PDPTs of completed forks, what was held before and what abandoned forks lost are counted |
| CowProtect.ForkUnprotects | arch/x86_64/page-fault.c:82-93 | whatever the parent can read, a store of the child or of the parent succeeds after a completed fork, though the parent might not write there |
| CowProtect.ProtectedBefore | arch/x86_64/page-fault.c:147-165 | without the fork a store where the space may not write is refused |
| CowProtect.ReadOnlyLost | arch/x86_64/thread.c:275-286 | from every machine with an empty space there is a run, with a page mapped read-only, a fork and a store, that shows what eager copying with kept permissions does not |
| CowProtect.ForkKeepsRights | arch/x86_64/thread.c:275-286 | a completed fork keeps the right to write a readable page exactly if a store was permitted or an entry of its path was copy-on-write |
| CowProtect.RunKeepsExactly | arch/x86_64/thread.c:275-286 | a run agrees throughout with eager copying that keeps permissions exactly if each fork is of a space all of whose memory is writable |
| CowProtect.WritableRunsKeepRights | arch/x86_64/thread.c:275-300 | runs in which all user memory is mapped writable refine eager copying with permissions kept |
| CowRun.BootInv | arch/x86_64/mm.c:503-520 | a machine with one PML4T whose user half is empty satisfies the invariant, so runs have a beginning |
| CowRun.PageOf | include/pml/x86_64/memory.h:144-178 | two user addresses have the same four indices exactly when they are on the same page |
| CowSpec.SoleOwner | arch/x86_64/mm.c:286-320 | a frame counted once that a space reaches is reached once, by no other space, and is no PML4T |
| CowSpec.RootAlone | arch/x86_64/thread.c:250-257 | no tree reaches a PML4T and no two spaces share one |
| CowSpec.FreshUnreached | arch/x86_64/mm.c:261-277 | a frame that alloc_page may return is reached by no space |
| CowSpec.PathInjective | include/pml/x86_64/memory.h:144-178 | the four indices and the offset determine a user address |
| CowFault.FaultWalkKeeps | arch/x86_64/page-fault.c:63-165 | the handler's walk keeps the invariant, every byte any space reads and what it may write, whether or not memory runs out half way; if it asks for a retry the whole path is writable |
| CowFault.CowStepInv | arch/x86_64/page-fault.c:73-93 | resolving one entry at any level keeps the invariant |
| CowFault.CowStepLoad | arch/x86_64/page-fault.c:73-93 | resolving one entry changes no byte that any space reads |
| CowFault.CowStepMay | arch/x86_64/page-fault.c:73-93 | resolving one entry does not change what any space may write |
| CowFault.WalkRetries | arch/x86_64/page-fault.c:69-165 | with memory at hand the walk ends in a retry exactly if an entry on it is copy-on-write |
| CowFault.SetInv | arch/x86_64/page-fault.c:91-92 | rewriting one entry of an unshared table keeps the invariant if references move as the entry does |
| CowFault.CowEntriesReach | arch/x86_64/page-fault.c:81-89 | a copied paging structure reaches what the original reaches and owns nothing |
| CowFault.TakeInv | arch/x86_64/mm.c:261-277 | taking a free frame and filling it keeps the invariant |
| CowFault.ReleaseInv | arch/x86_64/mm.c:304-320 | giving back held references keeps the invariant |
| CowSteps.StoreInv | arch/x86_64/page-fault.c:63-65 | a user store keeps the invariant |
| CowSteps.StoreLoad | arch/x86_64/page-fault.c:63-65 | a permitted user store changes the one byte in the one space, and nothing that another space or address reads |
| CowSteps.StoreMay | arch/x86_64/page-fault.c:63-65 | a store does not change what any space may write |
| CowSteps.CloneInv | arch/x86_64/thread.c:250-300 | thread_clone with copying keeps the invariant, whether or not it completes |
| CowSteps.CloneLoad | arch/x86_64/thread.c:275-300 | after a clone the parent and all others read as before, the child reads what the parent reads, and both may write all of it |
| CowSteps.UnmapInv | arch/x86_64/mm.c:484-497 | tear-down of user memory keeps the invariant |
| CowSteps.UnmapLoad | arch/x86_64/mm.c:484-497 | after tear-down the space reads nothing and all others read, and may write, as before |
| CowMap.MapWalkKeeps | arch/x86_64/mm.c:115-169 | on a path without copy-on-write entries vm_map_page keeps the invariant; it changes that page of that space, or, when it fails, nothing that anyone reads or may write; a page may be mapped over itself |
| CowMap.UnmapWalkKeeps | arch/x86_64/mm.c:182-224 | on a path without copy-on-write entries vm_unmap_page keeps the invariant and takes away that page of that space only |
| CowMap.MapWalkMem | arch/x86_64/mm.c:115-169 | the machine's mapping step does to memory what vm_map_page does |
| CowMap.UnmapWalkMem | arch/x86_64/mm.c:182-224 | the machine's unmapping step does to memory what vm_unmap_page does |
| CowShare.MapSeen | arch/x86_64/mm.c:115-169 | on any tables, shared or not: exactly the accesses of any space that come through the table written, by the indices of the address, read the page mapped; all others read as before |
| CowShare.SharedTableShows | arch/x86_64/mm.c:131-168 | a space that shares the table written, at whatever depth, reads the page mapped for another |
| CowShare.MapUnseenExactly | arch/x86_64/mm.c:131-168 | a page newly mapped for user code is seen nowhere else exactly if the table written is reached in no other way |
| CowShare.AloneIsPrivate | arch/x86_64/mm.c:131-168 | a table in no other space's tree, and once in its own, is reached in no other way |
| CowShare.UnmapSeen | arch/x86_64/mm.c:182-224 | on any tables: exactly the accesses through the page table written, by the last index, read nothing afterwards |
| CowShare.ForkShares | arch/x86_64/thread.c:275-300 | after every completed fork, at every address whose PML4T entry was present, the table vm_map_page writes is shared, for parent and child alike; what one maps for user code there, the other reads, and sees if it read nothing before |
| CowShare.IntrusionReached | arch/x86_64/mm.c:115-169 | from every machine with an empty space a run leads to one in which a mapping by the child shows in the parent |
| CowTally.ReachTimes | arch/x86_64/mm.c:166-168 | rewriting an entry of a page table changes a frame's occurrences once for each occurrence of the table |
| CowTally.MapCountsExactly | arch/x86_64/mm.c:164-168 | mapping a held page into a page table keeps the invariant exactly if the table is reached once |
| CowTally.MapUndercounts | arch/x86_64/mm.c:164-168 | otherwise the page is counted too low by the number of other ways to the table |
| CowTally.UnmapCountsExactly | arch/x86_64/mm.c:220-223 | unmapping a page keeps the invariant exactly if its page table is reached once |
| CowKernel.CopyTable | arch/x86_64/page-fault.c:81-89 | the copying loop yields the private copy: present entries copy-on-write and read-only, others zero |
| CowKernel.Kernel.AllocPage | arch/x86_64/mm.c:261-277 | a page is returned exactly if memory is not exhausted and a free frame lies from the cursor on, and it is the lowest of them; its count was zero and is now one; on failure no count changes and memory stays exhausted, whatever is freed later; memory becomes exhausted only when every frame is in use |
| CowKernel.Kernel.AskAgain | arch/x86_64/mm.c:261-320 | a refusal is repeated although a frame has been freed in between |
| CowKernel.Kernel.NextPage | arch/x86_64/mm.c:231-251 | the cursor advances by one frame or memory is exhausted |
| CowKernel.Kernel.RefPage | arch/x86_64/mm.c:286-295 | one more reference for a frame that has any |
| CowKernel.Kernel.FreePage | arch/x86_64/mm.c:304-320 | one reference less, and no free frame is left below the allocator's cursor |
| CowKernel.Kernel.RefPt | arch/x86_64/mm.c:358-367 | references every page the table names |
| CowKernel.Kernel.RefPdt | arch/x86_64/mm.c:376-388 | references everything reached through the directory, once for each path |
| CowKernel.Kernel.RefPdpt | arch/x86_64/mm.c:397-409 | references everything reached through the PDPT, once for each path |
| CowKernel.Kernel.FreePt | arch/x86_64/mm.c:418-427 | releases every page the table names |
| CowKernel.Kernel.FreePdt | arch/x86_64/mm.c:437-451 | releases everything reached through the directory, once for each path |
| CowKernel.Kernel.FreePdpt | arch/x86_64/mm.c:461-475 | releases everything reached through the PDPT, once for each path |
| CowKernel.Kernel.ResolveEntry | arch/x86_64/page-fault.c:73-93 | one block of the handler takes exactly one resolution step, with a free page, or changes nothing because memory is exhausted |
| CowKernel.Kernel.ResolveFrom | arch/x86_64/page-fault.c:69-163 | the blocks together take the handler's walk |
| CowKernel.Kernel.PageFault | arch/x86_64/page-fault.c:63-165 | int_page_fault for a user access is an allowed step of the machine, and reports a retry as the walk does; it stops for want of a page only when memory is exhausted, that is when every frame was in use or has been handed out by it |
| CowKernel.Kernel.UnmapUserMem | arch/x86_64/mm.c:484-497 | the loop over the user half is the machine's tear-down step, and changes no entry of the kernel half of any space |
| CowKernel.Kernel.ThreadClone | arch/x86_64/thread.c:244-300 | the allocations, the two passes and the copied PML4T are the machine's fork step, including its failures: without a thread identifier or a page nothing is marked and the PML4T is given back; a page is missing only if there were not two free frames; every space keeps its kernel half, and the child has the parent's with a thread-local PDPT of its own |
| CowKernel.Kernel.ShareUser | arch/x86_64/thread.c:275-296 | both passes over the parent: marking, then one more reference to everything reached |
| CowKernel.Kernel.MarkUser | arch/x86_64/thread.c:275-286 | present user entries become read-only and copy-on-write, nothing else changes |
| CowKernel.Kernel.RefUser | arch/x86_64/thread.c:287-296 | references everything the user half reaches |
| CowKernel.Kernel.VmPhysAddr | arch/x86_64/mm.c:64-100 | the level-by-level code returns what the abstract walk of the tables gives, which `PageMap.PhysAddrByEntries` and `PageMap.AddressIs` describe for every page size |
| CowKernel.Kernel.VmMapPage | arch/x86_64/mm.c:115-169 | does to memory and counts what the mapping step does, with free and distinct pages; ENOMEM for well-formed tables only when memory is exhausted |
| CowKernel.Kernel.VmUnmapPage | arch/x86_64/mm.c:182-224 | does to memory what the unmapping step does |
| CowRun.MapAllowed | arch/x86_64/mm.c:130-160 | on user memory with an unshared path, what vm_map_page does is an allowed step of the machine |
| CowKernelHalf.CloneKernelHalf | arch/x86_64/thread.c:298-300 | thread_clone keeps the kernel half of every space; the new PML4T has the parent's entry at every index of the kernel half but that of the thread-local area, where a present, writable user entry names an empty PDPT of its own, and in the user half the entries of the two are the same |
| CowKernelHalf.UnmapKernelHalf | arch/x86_64/mm.c:484-497 | tear-down keeps every entry of the kernel half of every space, and leaves none of the user half of that one |
| CowKernelHalf.FaultWalkKernel | arch/x86_64/page-fault.c:69-165 | the page fault handler changes no entry of a kernel half |
| CowKernelHalf.MapWalkKernel | arch/x86_64/mm.c:130-168 | mapping at a user address changes none either, whether or not memory runs out |
| CowKernelHalf.StepKeepsKernel | arch/x86_64/thread.c:275-300 | nor does any other step |
| CowKernelHalf.RunKeepsKernel | arch/x86_64/thread.c:298-300 | over every run each space keeps its kernel half, and if at the beginning all spaces share theirs, apart from the thread-local area, all that are ever forked do, too |
| EntryBits.CopiedWords | arch/x86_64/page-fault.c:81-89 | the copy of a paging structure, as words: present ones with COW set and RW clear, others zero |
| EntryBits.MarkedWords | arch/x86_64/thread.c:276-285 | the marks of thread_clone, as words, in the first 256 entries only |
| EntryBits.ClearedWords | arch/x86_64/mm.c:487-496 | the release of user memory, as words, in the first 256 entries only |
| EntryBits.ClonedWords | arch/x86_64/thread.c:298-300 | the new PML4T, as words: the parent's, and the address of the new PDPT with PRESENT, RW and USER at entry 506 |
| EntryBits.ResolvedWord | arch/x86_64/page-fault.c:91-92 | the entry of a resolved page is the decoding of the word written |
| EntryBits.DecodeMade | arch/x86_64/mm.c:137-137 | so is the entry of a new table |
| EntryBits.DecodeLeaf | arch/x86_64/mm.c:168-168 | and that of a page mapped: the address rounded down to a page, PRESENT and the flags |
| PageMap.RunRefinesMap | arch/x86_64/mm.c:64-224 | over every run of mapping and unmapping on an unshared tree the tree stays unshared, answers and mappings are those of an abstract map, and vm_phys_addr of every address is a lookup in it |
| PageMap.DoRefines | arch/x86_64/mm.c:115-224 | each operation refines the map's: EINVAL inside a large page, or where the size flag has made one; ENOMEM only without memory and for an unmapped page; EFAULT exactly for addresses that are not canonical, which are those `PageMap.CanonicalIs` names |
| PageMap.MapThenPhysAddr | arch/x86_64/mm.c:115-169 | after mapping, addresses of the page translate to the frame of the physical address and all others as before; after a failure all as before, unless the flags made a large page, which then is all that is new |
| PageMap.UnmapThenPhysAddr | arch/x86_64/mm.c:182-224 | after unmapping, exactly the addresses of the page, large page or huge page of the address are untranslated |
| PageMap.FailedMapKeeps | arch/x86_64/mm.c:130-168 | a failed mapping leaves every translation as it was exactly if it has not made a large page |
| PageMap.MadeLargeExactly | arch/x86_64/mm.c:140-162 | that happens exactly if the flags have the size bit, nothing is mapped, a table is missing and there is memory down to the PDPT or directory entry |
| PageMap.MapKeeps | arch/x86_64/mm.c:130-168 | the walk of vm_map_page from any depth, with tables allocated on the way or memory running out |
| PageMap.UnmapKeeps | arch/x86_64/mm.c:197-224 | the walk of vm_unmap_page from any depth |
| PageMap.SameSpan | include/pml/x86_64/memory.h:144-178 | canonical addresses agree on their first indices exactly when one entry covers them |
| PageMap.PhysAddrOfTranslation | arch/x86_64/mm.c:64-100 | where the processor lets user code read, vm_phys_addr names the byte it reads |
| PageMap.CanonicalIs | arch/x86_64/mm.c:76-78 | the sign-extension check accepts exactly the addresses below 2^47 and those from 2^64 - 2^47 on |
| PageMap.AddressIs | arch/x86_64/mm.c:86-94 | an entry of any level maps the first address of its span to the frame's address rounded down to the span, and the others in order |
| PageMap.PhysAddrByEntries | arch/x86_64/mm.c:64-100 | vm_phys_addr by the entries it meets: 0 for an address that is not canonical or below an absent entry; the offset within 1 GiB or 2 MiB is kept below an entry with the size bit |
| PageMap.PhysAddrSpan | arch/x86_64/mm.c:64-100 | inside the span of the entry that maps it, vm_phys_addr of two addresses differs as the addresses do |
| PageEntry.DecodeInjective | include/pml/x86_64/memory.h:98-109 | different words decode to different entries |
| PageEntry.DecodeResolved | arch/x86_64/page-fault.c:91-92 | the bit expressions of a resolution change frame, RW and COW and keep every other flag |
| PageEntry.DecodeShared | arch/x86_64/page-fault.c:86-87 | the bit expressions that share an entry set COW, clear RW and keep the rest |
| PageEntry.DecodeZero | arch/x86_64/mm.c:222-222 | a zeroed entry is an absent one |
| PageTree.PathReach | arch/x86_64/mm.c:358-409 | rewriting a table reached once changes a frame's occurrences in the whole tree by the change below the table |
| PageTree.LoadMoved | arch/x86_64/page-fault.c:151-165 | turning references to a frame into references to a copy of it changes no byte read |
| PageTree.ResolveTwice | arch/x86_64/mm.c:358-409 | two pages of one tree that translate to one frame reach it twice |
| HeapLayout.Relayout | kernel/heap.c:64-399 | a stretch of blocks may be laid out anew without disturbing the blocks and contents around it |
| HeapLayout.CutTiles | kernel/heap.c:186-212 | cutting a block leaves two blocks with matching headers and tails |
| HeapLayout.JoinTiles | kernel/heap.c:371-397 | uniting neighbours leaves one block with matching header and tail |
| KernelHeap.AlignUpCovers | include/stdlib.h:84-85 | the rounded size covers the request exactly for requests up to 16 bytes below the end of size_t; above that it wraps to an empty block |
| KernelHeap.Heap.constructor | kernel/heap.c:37-54 | one free block fills the region, and nothing is live |
| KernelHeap.Heap.Alloc | kernel/heap.c:64-218 | first fit: the first free block with room is carved, its pointer is new and aligned, it has room for the request and less than 64 bytes more, other blocks keep address and contents; NULL exactly if every free block is empty or smaller than the rounded size |
| KernelHeap.Heap.Search | kernel/heap.c:79-184 | the loop over the headers ends at the first free block, not empty, with room, if there is one |
| KernelHeap.Heap.Take | kernel/heap.c:186-217 | the chosen block is cut if the rest is worth a block, and marked |
| KernelHeap.Heap.Cut | kernel/heap.c:186-212 | leaves two blocks with matching headers and tails, the first with the flag and the first bytes of the old one, the second free, and touches nothing outside |
| KernelHeap.Heap.Realloc | kernel/heap.c:230-341 | for a block in use the answer is the same pointer exactly if the block is large enough or the free block after it makes it so, and NULL exactly if neither is so and no free block fits; the result is aligned, has room for the request and less than 64 bytes more, the common part is kept, no other block changes; NULL leaves everything; a pointer without a header is refused, and for a block not in use a new one is allocated |
| KernelHeap.Heap.ResizeBlock | kernel/heap.c:253-341 | the choice between cutting, growing in place, moving and failing, as the blocks decide it |
| KernelHeap.Heap.Grow | kernel/heap.c:253-299 | the block grows in place exactly if the block after it is free and the two together have room; then it takes as much as is needed or all of it |
| KernelHeap.Heap.Shrink | kernel/heap.c:315-338 | the rest becomes a free block if it is worth one |
| KernelHeap.Heap.Move | kernel/heap.c:300-312 | the contents are copied to a new block and the old one is freed; NULL exactly if no free block fits |
| KernelHeap.Heap.Free | kernel/heap.c:350-399 | the block is no longer live, all others are unchanged, free neighbours on both sides are united; freeing a free block again changes no contents, and a pointer without a header is refused |
| KernelHeap.Heap.UniteBack | kernel/heap.c:371-382 | a preceding free block is united with the released one |
| KernelHeap.Heap.UniteForward | kernel/heap.c:384-397 | a following free block is united with the released one |
| HeapRun.Perform | kernel/heap.c:64-399 | each operation keeps the heap valid and has the outcome callers rely on; where an allocation is placed, and whether a resize stays, moves or fails, is decided by the blocks as above |
| HeapRun.PerformAll | kernel/heap.c:64-399 | performing any operations as long as they are legal is a run in the sense of the statements below, from the contents at its beginning to those at its end, with all live blocks aligned and apart throughout; no two free blocks ever are neighbours exactly if no resize cuts a rest off before a free block |
| HeapRun.Undisturbed | kernel/heap.c:64-399 | over every run, a block not operated on keeps its address and contents |
| HeapRun.LiveApart | kernel/heap.c:64-218 | the data of two live blocks is separated by at least a tail and a header |
| HeapRun.ResizedTwice | kernel/heap.c:230-341 | repeated resizing keeps the part that never was cut off |
| HeapRun.FreeCoalesces | kernel/heap.c:350-399 | freeing, also of a free block, leaves no two free blocks side by side |
| HeapRun.TakeCoalesces | kernel/heap.c:64-218 | allocating leaves no two free blocks side by side |
| HeapRun.GrowCoalesces | kernel/heap.c:253-299 | growing in place leaves no two free blocks side by side |
| HeapRun.ShrinkCoalesces | kernel/heap.c:315-338 | shrinking leaves free neighbours exactly when it cuts off a rest before a free block |
| HeapRun.LaidCoalesced | kernel/heap.c:64-399 | over every run that begins without free neighbours there never are any exactly if no operation cuts a rest off before a free block |
| ExtentTree.LevelOrdered | drivers/fs/ext2/extent.c:226-278 | the entries of each height of a well-formed tree are ordered, disjoint and cover one another's gaps |
| ExtentTree.LevelPut | drivers/fs/ext2/extent.c:650-718 | replacing a node replaces its entries in each list and leaves those around it alone |
| ExtentTree.WfPut | drivers/fs/ext2/extent.c:650-718 | a node may be replaced by one that covers the same range |
| ExtentSearch.CoversUnique | drivers/fs/ext2/extent.c:226-278 | at most one entry of a height covers a block |
| ExtentSearch.StepDown | drivers/fs/ext2/extent.c:259-277 | descending into the right child loses no entry that could cover the block |
| ExtentSearch.NoneCovers | drivers/fs/ext2/extent.c:242-257 | when the search gives up in a node, no entry of that height in the whole tree covers the block |
| ExtentSearch.PlaceUnique | drivers/fs/ext2/extent.c:226-278 | different places in the tree are different places in the list |
| ExtentSplit.SplitKeeps | drivers/fs/ext2/extent.c:549-733 | a split keeps the tree well formed, within capacity, and every entry at its place in its list |
| ExtentSplit.SplitKeepsLevel | drivers/fs/ext2/extent.c:650-718 | a split keeps the list of entries of every height up to that of the node |
| ExtentSplit.SplitKidWf | drivers/fs/ext2/extent.c:650-718 | the parent of a split node stays well formed |
| ExtentSplit.GrowRootLevel | drivers/fs/ext2/extent.c:650-702 | growing the root keeps the list of entries of every height |
| ExtentSplit.GrowRootWf | drivers/fs/ext2/extent.c:650-702 | growing the root keeps the tree well formed |
| ExtentSplit.InsertFlat | drivers/fs/ext2/extent.c:810-834 | inserting into a leaf inserts at one place of the file's list of extents |
| ExtentSplit.ParentCovers | drivers/fs/ext2/extent.c:599-611 | the entry above an entry covers its key, so that the search finds it again |
| ExtentDisk.SplitStored | drivers/fs/ext2/extent.c:650-718 | after the writes of a split every node of the new tree is in the block its index entry names, no two in one, and none in a block the allocator has left |
| ExtentDisk.SplitWrites | drivers/fs/ext2/extent.c:650-718 | those writes are: the last entries of the node to the new block, the first ones to its own, the parent with one more index entry to the parent's, and nothing else |
| ExtentDisk.GrowStored | drivers/fs/ext2/extent.c:650-702 | the same for root growth, which writes the old root's entries to the new block |
| ExtentDisk.PutStored | drivers/fs/ext2/extent.c:30-53 | a node whose entries change, but not what is below it, stays stored if its block is written |
| ExtentDisk.SetKeyStored | drivers/fs/ext2/extent.c:766-777 | lowering a key writes the block of its node |
| ExtentDisk.StoredReadBack | drivers/fs/ext2/extent.c:418-447 | a stored tree is read back by following its block numbers |
| ExtentRekey.RekeyWf | drivers/fs/ext2/extent.c:735-780 | a leaf may start earlier, but not before the extents to its left end, if the keys above it are recomputed |
| ExtentRekey.RekeyFlat | drivers/fs/ext2/extent.c:735-780 | recomputing keys keeps the list of extents |
| ExtentRekey.InsertedBefore | drivers/fs/ext2/extent.c:810-834 | what an insertion before an entry leaves wrong is at most the keys on the path, and recomputing them makes the tree well formed |
| ExtentHandle.Handle.Current | drivers/fs/ext2/extent.c:364-505 | the current entry is reported with its range, or its length at the leaves; ENOENT without one |
| ExtentHandle.Handle.Root | drivers/fs/ext2/extent.c:367-391 | the first entry of the root becomes current, ESRCH if there is none |
| ExtentHandle.Handle.NextSib | drivers/fs/ext2/extent.c:375-391 | the next entry of the node becomes current, ESRCH at its end |
| ExtentHandle.Handle.PrevSib | drivers/fs/ext2/extent.c:392-401 | the previous entry of the node becomes current, ESRCH at its start |
| ExtentHandle.Handle.Up | drivers/fs/ext2/extent.c:409-417 | the entry above becomes current, EINVAL at the root |
| ExtentHandle.Handle.Down | drivers/fs/ext2/extent.c:418-463 | the first entry of the node in the block that the current entry names becomes current, EINVAL at a leaf or without a current entry |
| ExtentHandle.Handle.Goto | drivers/fs/ext2/extent.c:226-278 | the unique entry of the height that covers the block becomes current; ENOENT exactly when none does |
| ExtentHandle.Handle.Bmap | drivers/fs/ext2/extent.c:1112-1131 | lookup of a block equals linear lookup in the flat list of extents |
| ExtentHandle.Handle.SplittingEof | drivers/fs/ext2/extent.c:55-70 | true exactly below the root with nothing left to the right on any level |
| ExtentHandle.Handle.NodeSplit | drivers/fs/ext2/extent.c:549-733 | with recursive parent splits and root growth: every list of entries is kept, the current entry stays current in a node with room; it succeeds exactly if the allocator has a block for each node divided, from this one up as long as the parent is full, and for a grown root; ENOSPC leaves a well-formed tree. A divided node's block keeps its first entries and a block of the allocator's gets the others; of the blocks in use only those on the path are written, and every node stays in the block its index entry names |
| ExtentHandle.Handle.SplitParent | drivers/fs/ext2/extent.c:599-611 | a full parent is split first and the entry found again in the same node |
| ExtentHandle.Handle.SplitHere | drivers/fs/ext2/extent.c:613-722 | half of the entries of the node, or only the last at the end of the file, are written to the new block, the others to the node's own block; the parent gets an index entry for the new block with their first key after that of the node; no other block changes |
| ExtentHandle.Handle.GrowTree | drivers/fs/ext2/extent.c:619-722 | the entries of the root are written to the new block, and the root is left with one index entry, which names it; no other block changes |
| ExtentHandle.Handle.ReadsBack | drivers/fs/ext2/extent.c:418-447 | at any time the tree is what following the block numbers from the inode finds on disk |
| ExtentHandle.Handle.UpdatePath | drivers/fs/ext2/extent.c:30-53 | a node that has been changed is written to the block the entry above names, the root to the inode |
| ExtentHandle.Handle.EofIs | drivers/fs/ext2/extent.c:55-70 | nothing is left on any level exactly if the current entry is the last of its height in the tree |
| ExtentHandle.Handle.MovingHalf | drivers/fs/ext2/extent.c:628-634 | the two parts of a split differ by at most one entry, or one entry moves |
| ExtentHandle.LenReadBack | drivers/fs/ext2/extent.c:871-882 | an extent is refused exactly if its length would not be read back from the 16-bit field |
| ExtentHandle.Handle.InsertAfter | drivers/fs/ext2/extent.c:782-846 | with the flag for insertion after, exactly that extent is added right after the current one, with any splits needed; ENOSPC exactly if the node is full and may not be split or there are too few blocks for that, else EUCLEAN exactly if the extent is too long; failure keeps the list; every node stays in its block |
| ExtentHandle.Handle.InsertBefore | drivers/fs/ext2/extent.c:782-846 | without it, exactly that extent is added right before the current one, under the same conditions, and at most keys on the path are due for repair |
| ExtentHandle.Handle.FixParents | drivers/fs/ext2/extent.c:735-780 | after such an insertion the tree is well formed again, with the keys in the blocks, the list is the same, and the new extent is current |
| ExtentWalk.Next | drivers/fs/ext2/extent.c:280-330 | answers exactly the first of the visits that remain, or ESRCH when none does |
| ExtentWalk.Traverse | drivers/fs/ext2/extent.c:280-519 | from the root until ESRCH the traversal terminates and visits exactly the depth-first walk |
| ExtentWalk.WalkVisitsAll | drivers/fs/ext2/extent.c:280-519 | that walk meets every leaf extent once, in order, and every interior entry twice, the second time flagged |
| Sha256.ConsumeChunk | util/sha256.c:35-89 | updates the hash value by the compression function of section 6.2.2 of FIPS 180-4, whose parts the rows below describe |
| Sha256.ExtendRing | util/sha256.c:55-67 | the ring of sixteen words holds the last sixteen of the 64-word schedule |
| Sha256.RingWord | util/sha256.c:60-67 | the word computed in place in the ring is the next word of the schedule |
| Sha256.OneRound | util/sha256.c:68-83 | the shifted working variables are one round of the standard |
| Sha256.AllRounds | util/sha256.c:45-85 | four passes over the ring are the 64 rounds of the standard |
| ShaConstants.RoundConstants | util/sha256.c:21-33 | each round constant is the first 32 bits of the fractional part of the cube root of its prime |
| ShaConstants.InitialValue | util/sha256.c:99-106 | each word of the initial hash value is the same of the square root of its prime |
| ShaConstants.PrimesInOrder | util/sha256.c:21-33 | those are the first 64 primes, in order |
| Sha256.ChBit | util/sha256.c:69-69 | each bit of Ch is y's where x has a one, and z's elsewhere |
| Sha256.MajBit | util/sha256.c:73-73 | each bit of Maj is that of the majority |
| Sha256.Sigma0Bit | util/sha256.c:72-72 | each bit is the exclusive-or of those 2, 13 and 22 places higher, around the word |
| Sha256.Sigma1Bit | util/sha256.c:68-68 | the same with 6, 11 and 25 |
| Sha256.Lower0Bit | util/sha256.c:62-63 | the same with 7 and 18, and the bit 3 places higher if there is one |
| Sha256.Lower1Bit | util/sha256.c:64-65 | the same with 17 and 19, and 10 |
| Sha256.ScheduleIs | util/sha256.c:55-67 | each word of the schedule is a word of the block or the sum, modulo 2^32, of those the standard names |
| Sha256.RoundIs | util/sha256.c:68-83 | each variable after a round, as a sum modulo 2^32 |
| Sha256.WordAtIs | util/sha256.c:57-57 | words are read from a block most significant byte first |
| Sha256.BytesIs | util/sha256.c:174-180 | words are written to the digest most significant byte first |
| Words.RotrBit | util/sha256.c:62-65 | rotation moves bits around the word |
| Sha256.Context.constructor | util/sha256.c:91-107 | the context of the empty message |
| Sha256.Context.Write | util/sha256.c:109-139 | whatever its length, the data is appended to the message the context stands for |
| Sha256.Context.Close | util/sha256.c:141-182 | the digest of everything written, by the definition in FIPS 180-4, with the constants and word functions described above |
| Sha256.PutLength | util/sha256.c:164-171 | the eight bytes written are the length in bits, most significant first |
| Sha256.PadBlocks | util/sha256.c:150-172 | the padding of section 5.1.1 fills one more block, or two when fewer than eight bytes are left |
| Sha256.HashParts | util/sha256.c:91-182 | the digest does not depend on how the message is divided among writes |
| Sha256.HashData | util/sha256.c:184-192 | the digest of the data, by the same definition |

## Left out

- CowKernel.Kernel.AllocPage: frame 0 is never handed out, because physical page 0 is not free memory; NextPage numbers frames without the holes of the memory map.
- CowKernel.Kernel.NextPage: does not model the list of memory regions that vm_next_page skips between.
- CowKernel.Kernel.RefPage: counts are unbounded; the 32-bit counters of the table are assumed not to overflow.
- CowKernel.Kernel.ThreadClone: models copying clones only; the new thread's stack pages, its kernel data page and the tables for them below the thread-local PDPT (arch/x86_64/thread.c:301-350), with their allocation and release, are one flag.
- CowLedger.StepHeld: the frames of those stacks, of the kernel data page and of their tables are not booked.
- CowLedger.EverythingReturned: those frames, which the code counts as well, are not among the counts.
- CowKernel.Kernel.PageFault: user accesses above the user half are never copy-on-write and are answered without a walk; TLB invalidation, signals and the interleaving of handlers are not modelled.
- CowMap.MapWalkKeeps: that the invariant is kept is proved for paths without copy-on-write entries, for user addresses, and for flags without the size and copy-on-write bits; what is read after a mapping through shared tables is `CowShare.MapSeen`.
- CowMap.UnmapWalkKeeps: the same for vm_unmap_page; through shared tables `CowShare.UnmapSeen`.
- CowTally.MapCountsExactly: for addresses whose page table exists; what new tables below a shared one do to the counts is not stated.
- CowRun.MapAllowed: as CowMap.MapWalkKeeps.
- PageMap.RunRefinesMap: demands that pages from the allocator are different and not tables of the tree.
- KernelHeap.Heap.Alloc: only the default alignment; a larger alignment takes branches (kernel/heap.c:117-140) whose back-pointers are not always reset.
- KernelHeap.Heap.constructor: the region must start and end at multiples of 16 and hold a header and a tail, as the reserved region does.
- KernelHeap.Heap.Free: pointers into the middle of a block whose data happens to look like a header are excluded by its precondition.
- KernelHeap.Heap.Realloc: the same.
- ExtentHandle.Handle.Goto: reading a block, its header check and its checksum are assumed to succeed, and the file's size covers its mapped blocks; the handle's buffers are not modelled apart from the tree, which `ExtentHandle.Handle.ReadsBack` ties to the blocks.
- ExtentHandle.Handle.NodeSplit: below the root the node has at least two entries; the writes of one split all succeed, so a failure between them, and a failed allocation of kernel memory for buffers, are not modelled.
- ExtentHandle.Handle.InsertAfter: at the leaves, of an extent that lies in the gap after the current one.
- ExtentHandle.Handle.InsertBefore: at the leaves, of an extent that lies in the gap before the current one.
- ExtentWalk.Next: the moves backwards and to the last leaf are not modelled.
- Sha256.Context.Write: bytes are read from a sequence instead of memory, and the length is unbounded; only its 61 low bits are ever used.
- ExtentHandle.Handle.FixParents: after an insertion; after deletions and replacements it is not modelled.
- Deletion of extents, extent_set_bmap, deallocation of blocks and the allocating part of extent_bmap.
- Directory blocks, the file buffer, bitmaps, inode allocation and indirect block maps of ext2; ATA transfers; the mmap region table; hash maps.
- Devices, interrupts, scheduling, signals, files and system calls.

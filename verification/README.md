# A verified model of the SDIOS servers and boot loader

SDIOS is a small multi-server system on the L4 microkernel. This project models the parts of it that keep state in
lists, tables and buffers, on 32-bit words, and proves what they promise over every input and every sequence of requests.

- **Physical memory** (`Spans`, `Blocks`, `Regions`, `PhysicalMemory`, `Books`, `MemoryMap`, `Sigma0`, `Descriptors`):
  sigma0's three pools of memory regions. `Regions` holds the linked nodes as they are updated in place; `Spans` says what map
  from addresses to owners a list denotes; `PhysicalMemory` is the specification of requests and runs; `Sigma0` ties the code
  to it; `Descriptors` says what the kinds of memory in the interface page mean for requests.
- **Heap** (`Arena`, `Heap`): the next-fit allocator on header cells. `Arena` is the partition into blocks, `Heap` the ring of
  headers that implements it.
- **Task server** (`Slots`, `Chains`, `Tasks`, `TaskRuns`, `TaskServer`) and **application pager** (`Chains`, `Frames`,
  `AppPager`): records spread over intrusive lists. `Chains` has the algebra of such lists; a pointer is the number of a record.
  `TaskRuns` has the theorems about runs of the task server.
- **Program loading** (`Elf`, `Executables`, `RamDsm`, `DemandPager`): loading page by page against loading the whole image, from the
  bytes of an executable on.
- **Boot** (`Boot`, `Multiboot`, `Bootinfo`): the search for free regions, descriptors in the kernel interface page, the copy of
  the multiboot information, and the bootinfo records that later servers walk.
- **Keyboard** (`Keyboard`): scancodes, modifiers, a bounded buffer and one waiting reader.
- **Numbers as text** (`Numerals`, `Print`, `Formats`, `Padding`): integer parsing and formatted output.

The system implements the Sigma0 RPC protocol (section 7.6) and the memory descriptors (section 1.1) of the L4 eXperimental
Kernel Reference Manual, Version X.2; PT_LOAD is that of "Program Header" in chapter 5 of the System V ABI; boot modules come
from section 3.3 of the Multiboot Specification; formatted output and number parsing follow sections 7.19.6.12 and 7.20.1.4 of
ISO C99 as far as the code does.

Where the code does not keep a promise, the model keeps the code, states exactly when the promise holds, and names an input
for which it does not:

- sigma0 refuses a block that ends at the top of the address space when its pages come from different pools, although every
  page is free (`Sigma0.RefuseTopBlock`).
- the heap hands out the last free block and keeps it on its ring when it fits exactly (`Heap.SameMemoryTwice`), and a block
  given back right below the only free block leaves both on the ring (`Heap.BothOnRing`); neither happens as long as the block
  at the arena's start is never taken whole (`Heap.Heap.Serve`, `Arena.RunIsSound`).
- a page that begins behind a segment's file data is filled from the file instead of with zeros (`Elf.BehindDataDiffers`).
- giving back a space uses a null pointer if the last thread goes before the space ever had a page (`AppPager.CrashAtOnce`); it is
  given back with all its frames exactly when it has one (`AppPager.AppPager.DeleteAssociation`).
- the application pager answers a fault of one task from the program of the task that was started last, since all spaces use one
  file slot (`DemandPager.SharedSlot`); a page is always one of what is in the slot then (`DemandPager.DemandPager.Fault`).
- a caller that waits for a thread that was killed is never answered, since killing leaves the id in the record
  (`TaskServer.WaitForKilled`, `TaskRuns.NeverAnswered`).
- a search cursor of the task server leaves its table when the last record was handed out (`TaskServer.SpacesOverrun`). The
  search that would never end, from a cursor of 0 in a full table, does not come about (`TaskServer.TaskServer.Serve`).
- `find_module` accepts an index that is one too high (`Bootinfo.FindModule`), although its message says that modules are missing.
- a free region at address 0 is reported as no region (`Boot.ZeroIsNowhere`).
- a number with a prefix that is adjusted to the left gets the prefix on top of its width (`Padding.TooWide`), and what `%#b`
  prints, with a percent sign for the prefix and a zero too many, is not read back (`Padding.PaddedIsParsed`).

Words wrap explicitly (`Words.Add`, `Words.Sub`). A mask that clears the low bits of a word is written as a subtraction of the
remainder; a word used as a bit map is given by the set of its bits. Each request handler is one atomic step, and system calls
(ThreadControl, SpaceControl, mapping, IPC replies) succeed.

## Model

| member | source | states |
|---|---|---|
| `Blocks.CanAllocateExact` | sdios/serv/sigma0/sigma0.cc:643-663 | for an address aligned to the block, the wrapping tests hold exactly when the owner allows it and the block lies inside the region as an interval of integers |
| `Blocks.BlockPlace` | sdios/serv/sigma0/sigma0.cc:594-613 | an accepted block starts or ends where the region does exactly when the tests on the aligned limits say so, so that the four cases of the allocation are told apart correctly |
| `Blocks.CanAllocateAnyExact` | sdios/serv/sigma0/sigma0.cc:521-540 | the form without an address succeeds exactly when the owner allows it and some aligned block fits, also for regions at both ends of the address space |
| `Blocks.AnyPlace` | sdios/serv/sigma0/sigma0.cc:541-565 | the block chosen by that form is aligned, fits, and its place in the region decides between start, end, middle and whole |
| `Blocks.LowAlignedIsCeiling` | sdios/serv/sigma0/sigma0.cc:529 | the rounded-up lower limit is the least multiple of the size that is not below the region, unless the sum wraps, which the test for a smaller result finds |
| `Blocks.HighAlignedIsFloor` | sdios/serv/sigma0/sigma0.cc:530 | the rounded-down upper limit is the last address before the greatest multiple of the size that fits, also when the region ends at the top |
| `Spans.CarveCorrect` | sdios/serv/sigma0/sigma0.cc:541-565 | taking a range out of one region leaves a list in the kept form that denotes the old map without exactly that range |
| `Spans.CarveForms` | sdios/serv/sigma0/sigma0.cc:541-565 | the four edits of the list (whole, start, end, middle) are the same removal |
| `Spans.InsertedCorrect` | sdios/serv/sigma0/sigma0.cc:792-823 | inserting a disjoint region adds exactly it to the map and keeps the list sorted, disjoint and maximally coalesced per owner |
| `Spans.PlacedIsInserted` | sdios/serv/sigma0/sigma0.cc:804-822 | joining with the region before, then with the one behind, or linking in, gives the same list as joining with every neighbour that touches |
| `Spans.Canonical` | sdios/serv/sigma0/sigma0.cc:495-508 | two pool lists in the kept form that denote the same map from addresses to owners are the same list |
| `Spans.FilledIsInside` | sdios/serv/sigma0/sigma0.cc:1198-1208 | a block that one thread owns throughout lies inside a single region, so that looking region by region misses nothing |
| `Regions.Region.Concatenate` | sdios/serv/sigma0/sigma0.cc:495-508 | two regions join exactly when their owners agree and they are adjacent without wrapping; the result is their union |
| `Regions.Pool.constructor` | sdios/serv/sigma0/sigma0.cc:775-783 | two sentinels linked to each other; the pool denotes the empty map |
| `Regions.Pool.InsertNode` | sdios/serv/sigma0/sigma0.cc:792-823 | links stay inverse to each other; the pool denotes the old map and the inserted region; the node is kept or dropped as the joins ask |
| `Regions.Pool.Insert` | sdios/serv/sigma0/sigma0.cc:845-849 | adds exactly the range for the owner |
| `Regions.Pool.Remove` | sdios/serv/sigma0/sigma0.cc:858-895 | deletes exactly the range: drops, trims and splits nodes, and keeps links, order and coalescing |
| `Regions.Pool.Reset` | sdios/serv/sigma0/sigma0.cc:919-922 | the walk begins at the first region |
| `Regions.Pool.Next` | sdios/serv/sigma0/sigma0.cc:924-931 | the walk visits the regions in order and ends behind the last |
| `Regions.Pool.CarveAt` | sdios/serv/sigma0/sigma0.cc:582-631 | a region gives a block at an address exactly when the wrap-safe test allows it; the pool then denotes the map without that block |
| `Regions.Pool.CarveAny` | sdios/serv/sigma0/sigma0.cc:521-568 | a region gives an aligned block somewhere exactly when one fits; the pool then denotes the map without it |
| `Regions.Pool.TryAllocate` | sdios/serv/sigma0/sigma0.cc:1181-1196 | the walk over a free pool takes the block from the first region that has it, and fails exactly when none has |
| `Regions.Pool.HoldsFor` | sdios/serv/sigma0/sigma0.cc:1198-1208 | the walk over the allocated pool finds the block exactly when one region holds it for the thread or for everyone, and changes nothing |
| `Regions.Pool.PageStep` | sdios/serv/sigma0/sigma0.cc:1234-1252 | one page of the slow path: found exactly when some region offers it under the wrapping overlap test, taken in the second phase only |
| `Sigma0.FastPathIsUniform` | sdios/serv/sigma0/sigma0.cc:1178-1208 | the fast path succeeds exactly when every page of the block is usable and all come from one pool with one owner |
| `Sigma0.PageOfferedIsUsable` | sdios/serv/sigma0/sigma0.cc:1226-1252 | a page below the top of the address space is offered by some pool exactly when the requester may have it |
| `Sigma0.TopPageRefused` | sdios/serv/sigma0/sigma0.cc:1226-1238 | the page at the top of the address space is never offered in the slow path after the fast path failed, because its end wraps to 0 |
| `Sigma0.Sigma0.Slow` | sdios/serv/sigma0/sigma0.cc:1210-1263 | check phase and allocation phase: succeeds exactly when every page of a block that ends below the top is usable; if the check passes the allocation cannot fail, and a failure changes no pool |
| `Sigma0.Sigma0.AllocatePageAt` | sdios/serv/sigma0/sigma0.cc:1153-1264 | one step of the memory manager: the exact condition of success, the block granted, nothing else changed, and no change on failure |
| `Sigma0.Sigma0.AllocatePageAnywhere` | sdios/serv/sigma0/sigma0.cc:1277-1306 | succeeds exactly when an aligned block of conventional memory exists; grants one such block |
| `Sigma0.Sigma0.Serve` | sdios/serv/sigma0/sigma0.cc:1153-1306 | the memory of the real pools goes through a run of the specified steps, for every sequence of requests of both forms |
| `PhysicalMemory.RunKeeps` | sdios/serv/sigma0/sigma0.cc:1153-1306 | over every run an owned address keeps its owner and the managed memory stays the same set |
| `PhysicalMemory.ExclusiveMapping` | sdios/serv/sigma0/sigma0.cc:1153-1306 | no address is mapped to two threads over a run, unless it belongs to everyone |
| `PhysicalMemory.OwnersAsked` | sdios/serv/sigma0/sigma0.cc:1187-1195 | whoever owns an address owned it from the start or was sent a map item that covers it |
| `PhysicalMemory.GrantIsStable` | sdios/serv/sigma0/sigma0.cc:1198-1208 | at any later time in a run the thread can ask again for what it was granted, or for any part of it: it gets it and nothing changes |
| `Books.TopBlockRefused` | sdios/serv/sigma0/sigma0.cc:1226-1238 | pools in which every page of a block is usable and the block cannot be granted: it ends at the top of the address space and comes from two pools |
| `Sigma0.RefuseTopBlock` | sdios/serv/sigma0/sigma0.cc:1226-1238 | a memory descriptor after which the manager refuses such a block |
| `Books.MoveGrants` | sdios/serv/sigma0/sigma0.cc:1187-1195 | moving a block from a free pool to the allocated pool grants it and leaves the pools disjoint |
| `Words.MinPageSize` | sdios/serv/sigma0/sigma0.cc:1097-1111 | the number of the lowest bit set in the page-size mask from bit 10 on, or 0 for an empty mask |
| `MemoryMap.LastDescriptorDecides` | sdios/serv/sigma0/sigma0.cc:1028-1075 | the last physical descriptor that covers a page decides its pool and owner |
| `MemoryMap.UnmentionedIsOther` | sdios/serv/sigma0/sigma0.cc:1025-1026 | memory that no physical descriptor mentions is in the non-conventional pool |
| `MemoryMap.DescPages` | sdios/serv/sigma0/sigma0.cc:1034-1035 | the pages of a descriptor, from its rounded limits, are those that meet its range, also at the top of the address space |
| `Sigma0.Sigma0.ApplyDescriptor` | sdios/serv/sigma0/sigma0.cc:1029-1075 | removing a range from all pools and entering it into at most one reclassifies exactly its pages and keeps the pools disjoint |
| `Sigma0.Sigma0.InitFromDescriptors` | sdios/serv/sigma0/sigma0.cc:1021-1075 | after all descriptors every address has the status given by the last physical descriptor that covers its page |
| `Sigma0.Sigma0.RegisterMemory` | sdios/serv/sigma0/sigma0.cc:943-958 | every page of the range that is free or the thread's goes to the thread, the others stay as they are |
| `Sigma0.Sigma0.InitServers` | sdios/serv/sigma0/sigma0.cc:1077-1089 | the initial servers get their pages in order; a server whose upper limit is 0 gets none |
| `MemoryMap.FirstServerGetsIt` | sdios/serv/sigma0/sigma0.cc:1084-1088 | a page claimed by several initial servers belongs to the first of them that could have it |
| `Descriptors.CoversIsMeets` | sdios/serv/sigma0/sigma0.cc:1034-1035 | the pages computed for a descriptor are those that its range, in units of 1024 bytes, meets |
| `Descriptors.KindDecides` | sdios/serv/sigma0/sigma0.cc:1041-1074 | after all descriptors, a page whose last physical descriptor is conventional is free, reserved is the kernel's, shared is everyone's, dedicated, boot loader or architecture specific is free but not conventional, and of any other kind is in no pool |
| `Descriptors.NoneDecides` | sdios/serv/sigma0/sigma0.cc:1025-1026 | a page that no physical descriptor meets is free but not conventional |
| `Descriptors.ReservedIsKernels` | sdios/serv/sigma0/sigma0.cc:1060-1062 | in every run reserved memory stays the kernel's and is mapped to no other thread |
| `Descriptors.SharedIsEveryones` | sdios/serv/sigma0/sigma0.cc:1066-1068 | in every run a block of shared memory is given to every thread that asks for it, and nothing changes |
| `Descriptors.DedicatedIsNotConventional` | sdios/serv/sigma0/sigma0.cc:1041-1065 | in every run dedicated memory is not conventional: a request for memory anywhere never gets it, and one for conventional memory there only if it has an owner |
| `Descriptors.UndefinedIsNobodys` | sdios/serv/sigma0/sigma0.cc:1055-1056 | in every run memory of no known kind is never mapped |
| `Descriptors.FreeIsGiven` | sdios/serv/sigma0/sigma0.cc:1041-1065 | in every run a block that no server claims and that was not mapped yet is given to the thread that asks for it, and belongs to it then, if it is conventional, or if it is dedicated and the thread does not ask for conventional memory; otherwise not |
| `Descriptors.ClaimsItsRange` | sdios/serv/sigma0/sigma0.cc:943-958 | an initial server claims the pages that its range meets, unless that ends in the last page of the address space |
| `Descriptors.StartAndServe` | sdios/serv/sigma0/sigma0.cc:1021-1306 | from the interface page to the last request: descriptors, initial servers, and then a run |
| `Arena.LiveIsDisjoint` | sdios/lib/sdi/heap.cc:38-66 | a block that was handed out overlaps no free block and no other block that was handed out |
| `Arena.TakeKeeps` | sdios/lib/sdi/heap.cc:52-61 | taking the tail of a free block, or all of it, keeps free and allocated blocks a partition of the arena |
| `Arena.ReleaseKeeps` | sdios/lib/sdi/heap.cc:80-89 | giving a block back joined with both neighbours keeps the partition, the order, and that no two free blocks touch |
| `Arena.TakeThenReleaseAnywhere` | sdios/lib/sdi/heap.cc:38-91 | the block just taken, given back at the place the search finds, restores the free list |
| `Arena.RunIsSound` | sdios/lib/sdi/heap.cc:38-91 | in every run that never takes the block at the arena's start whole, the partition holds in every state and neither of the two one-block cases arises |
| `Heap.RingReleased` | sdios/lib/sdi/heap.cc:80-90 | the link edits of a release make the ring of the new free list, unless the ring is one block that the given block ends at |
| `Heap.RingTaken` | sdios/lib/sdi/heap.cc:53-59 | the link edits of an allocation make the ring of the new free list, unless the only block goes whole |
| `Heap.SearchStops` | sdios/lib/sdi/heap.cc:76-78 | the two exit tests hold at exactly one position of the ring, the place of the block in address order |
| `Heap.UnitsFit` | sdios/lib/sdi/heap.cc:43 | the units asked for are the least that hold a header and the payload, exactly when the rounding does not wrap |
| `Heap.Heap.constructor` | sdios/lib/sdi/heap.cc:44-50 | the arena as a single free block, not yet laid out |
| `Heap.Heap.Alloc` | sdios/lib/sdi/heap.cc:38-66 | next fit: the first large enough block round the ring, of which the tail is handed out, and the search goes on before it next time; without a wrap NULL exactly when no free block has so many bytes behind its header, and otherwise the block has less than a header to spare; the ring, sizes and partition are kept; the one-block exact fit leaves the block on the ring |
| `Heap.Heap.Free` | sdios/lib/sdi/heap.cc:71-91 | the search ends, the block is joined with the neighbours it touches, and the partition is kept, exactly unless it ends where the only free block starts; then the ring holds both |
| `Heap.Heap.AllocFree` | sdios/lib/sdi/heap.cc:38-91 | giving back what was just taken restores free and allocated blocks |
| `Heap.Heap.AllocTwice` | sdios/lib/sdi/heap.cc:53-61 | when the only free block fits exactly, two requests in a row get the same memory |
| `Heap.SameMemoryTwice` | sdios/lib/sdi/heap.cc:38-61 | a fresh arena of five units, and two requests for 32 bytes that are answered with the same memory |
| `Heap.BothOnRing` | sdios/lib/sdi/heap.cc:71-91 | a series of requests after which a block and the block it was joined with are both on the ring, one inside the other |
| `Heap.Heap.Serve` | sdios/lib/sdi/heap.cc:38-91 | every series of requests of a client is a run of the arena, until one is answered with the whole block at the arena's start; the client holds exactly the blocks that are handed out |
| `Heap.Heap.WritePayload` | sdios/lib/sdi/heap.cc:21-28 | whatever a client writes into its block does not disturb the heap |
| `Slots.Scan` | sdios/src/taskserver/taskserver.cc:40-93 | the slot found is the first free one in cyclic order from the cursor; the slot before the cursor is not looked at; panic, access behind the table and endless search each happen exactly in the stated case |
| `Slots.ReachesAll` | sdios/src/taskserver/taskserver.cc:40-52 | a search gets to a free slot exactly if there is one that is not right before the cursor |
| `Slots.FirstFromIs` | sdios/src/taskserver/taskserver.cc:40-52 | the slot found comes before every other free one when one goes round from the cursor |
| `Chains.Pushed` | sdios/src/taskserver/taskserver.cc:281-282 | a record put in front of a list: all lists stay chains and partition their records |
| `Chains.Inserted` | sdios/src/taskserver/taskserver.cc:305-306 | a record linked in behind another: all lists stay chains and partition their records |
| `Chains.Unlinked` | sdios/src/taskserver/taskserver.cc:133-145 | a record taken off a list: all lists stay chains and partition their records |
| `Tasks.FreeSpace` | sdios/src/taskserver/taskserver.cc:41-42 | a space's first-thread pointer is null exactly when no live thread is in it |
| `Tasks.OneThreadAnswers` | sdios/src/taskserver/taskserver.cc:277-282 | a listener in use and not stranded is on the list of exactly one thread, which is live |
| `TaskRuns.OnListIfLive` | sdios/src/taskserver/taskserver.cc:266-282 | a caller that is told to wait is on a list exactly if the thread is live |
| `TaskRuns.NeverAnswered` | sdios/src/taskserver/taskserver.cc:266-282 | in every run a caller that is told to wait for a thread that is gone keeps its listener for ever, and no request answers it |
| `TaskRuns.AnsweredWhenKilled` | sdios/src/taskserver/taskserver.cc:244-253 | in every run a caller that waits for a live thread is answered by exactly the first request that kills the thread, and its listener is free then |
| `TaskRuns.BornThere` | sdios/src/taskserver/taskserver.cc:95-115 | in every run a live thread has the control block it was made with: the first thread of a task the first of the area, a created one the lowest that no thread of its creator's space had then, and none only if all were taken |
| `TaskRuns.OwnPlaces` | sdios/src/taskserver/taskserver.cc:304-307 | in every run two live threads of a space have different control blocks, unless they have none |
| `TaskRuns.StepPlaces` | sdios/src/taskserver/taskserver.cc:163-321 | no request moves the control block of a live thread |
| `TaskRuns.StepKeeps` | sdios/src/taskserver/taskserver.cc:163-321 | every request keeps the invariants: spaces partition threads, listeners are on lists of live threads, places and ids are unique |
| `TaskServer.TaskServer.Serve` | sdios/src/taskserver/taskserver.cc:163-321 | every series of requests is a run of the specified steps until one fails, and no search is endless |
| `TaskServer.WaitForKilled` | sdios/src/taskserver/taskserver.cc:126-146 | from the start: a task is started, killed and waited for, and the caller is stranded |
| `TaskServer.SpacesOverrun` | sdios/src/taskserver/taskserver.cc:40-47 | from the start: a task in every space, one of them killed, and the next start looks behind the end of the table |
| `Tasks.StartKeeps` | sdios/src/taskserver/taskserver.cc:167-189 | starting a task keeps the partition of threads into spaces, the waiters, the local ids and the thread ids |
| `Tasks.CreateKeeps` | sdios/src/taskserver/taskserver.cc:303-309 | creating a thread keeps them |
| `Tasks.WaitKeeps` | sdios/src/taskserver/taskserver.cc:276-282 | waiting for a live thread keeps them and adds the caller to those who wait for it |
| `Tasks.WaitInVain` | sdios/src/taskserver/taskserver.cc:276-282 | waiting for a thread that is gone keeps them and uses a listener up |
| `Tasks.KillKeeps` | sdios/src/taskserver/taskserver.cc:126-146 | killing a thread keeps them |
| `Tasks.UnitsInside` | sdios/src/taskserver/taskserver.cc:95-115 | when the area is a whole number of control blocks, each local id's block lies inside it |
| `Tasks.UnitPlace` | sdios/src/taskserver/taskserver.cc:101 | control blocks lie one behind the other from the start of the area on |
| `TaskServer.TaskServer.FindTcb` | sdios/src/taskserver/taskserver.cc:117-124 | the first record with the id, live or not |
| `TaskServer.TaskServer.GetFreeLocalId` | sdios/src/taskserver/taskserver.cc:95-115 | the lowest place in the area that no listed thread has, or nil exactly when all are taken |
| `TaskServer.TaskServer.StartTask` | sdios/src/taskserver/taskserver.cc:163-220 | succeeds exactly when both searches do, and leaves the table exactly when a cursor is at its end; the records are the first free ones from the cursors; the new task is a space with one thread at the start of the area, with the next id, and no other record changes |
| `TaskServer.TaskServer.CreateThread` | sdios/src/taskserver/taskserver.cc:291-321 | succeeds exactly when the caller is known, live, and a record is found; null pointer, end of the table and panic each in the stated case; the thread is linked in behind the caller with the next id and the lowest local id no thread of the space has, and no other record changes |
| `TaskServer.TaskServer.WaitTid` | sdios/src/taskserver/taskserver.cc:262-287 | an unknown thread is answered for at once; otherwise the caller is put in front of the waiters, in a record of its own, which counts exactly for a live thread; the search for a listener panics or leaves the table in the stated cases |
| `TaskServer.TaskServer.Kill` | sdios/src/taskserver/taskserver.cc:224-258 | the replies go exactly once to exactly the callers that have waited since the thread was started, latest first; their listeners and the thread's record are free, and the space too if it was its last thread |
| `TaskServer.GoneWhenKilled` | sdios/src/taskserver/taskserver.cc:126-146 | the record is free and out of its list, the one before it is linked to the one behind, exactly its listeners are free, and no other record changes |
| `Frames.FramesAreConserved` | sdios/src/apppager/util.cc:8-33 | every frame ever made is on exactly one list, at one place; frames lie in the range for frames and do not overlap |
| `Frames.SpaceHasItsThreads` | sdios/src/apppager/util.cc:54-66 | a thread is on a space's list exactly when it is on the global list and the space is its own |
| `Frames.LastThreadFreesFrames` | sdios/src/apppager/util.cc:99-101 | when the last thread of a space goes, exactly the space's frames join the free list, and no other list changes |
| `Frames.GrantedAddress` | sdios/src/apppager/util.cc:8-25 | the frame given is the first free one or the next one, and lies where its number says |
| `Frames.GrantedLists` | sdios/src/apppager/util.cc:124-128 | the frame is put in front of the space's list; the free list loses its first frame if it has one, and no other list changes |
| `Frames.RemovedFreesSpace` | sdios/src/apppager/util.cc:147-152 | with its last thread a space goes to the front of the free list, otherwise that list stays |
| `Frames.RemovedForgets` | sdios/src/apppager/util.cc:68-97 | a thread that goes is taken out of both lists and everything else on them keeps its order; the other records change in their links only |
| `Chains.Joined` | sdios/src/apppager/util.cc:27-33 | a whole list put in front of another: all lists stay chains and partition their records |
| `AppPager.AppPager.AllocPage` | sdios/src/apppager/util.cc:8-25 | the first free frame, or a new one at the next address; none exactly when no frame is free and the range is used up |
| `AppPager.AppPager.FreePages` | sdios/src/apppager/util.cc:27-33 | the last page of the list is linked to the free list, which then starts with the first |
| `AppPager.AppPager.Find` | sdios/src/apppager/util.cc:104-113 | the first thread on the global list with the id |
| `AppPager.AppPager.AssociateImage` | sdios/src/apppager/util.cc:41-52 | a new thread in a space of its own: the first free space, without pages, if there is one, else a new one; in front of the global list; no other record changes |
| `AppPager.AppPager.CopyAssociation` | sdios/src/apppager/apppager.cc:134-144 | a new thread in front of the list of an existing thread's space; an unknown thread is a use of a null pointer |
| `AppPager.AppPager.DeleteAssociation` | sdios/src/apppager/apppager.cc:148-156 | the thread leaves both lists, the last one frees space and frames; a null pointer is used exactly when the last thread of a space without pages goes; an unknown thread is ignored |
| `AppPager.CrashAtOnce` | sdios/src/apppager/util.cc:147-149 | a task that goes before its first page fault: giving its space back uses a null pointer |
| `AppPager.AppPager.Unjoin` | sdios/src/apppager/util.cc:85-97 | takes the thread off its space's list; after the removal of the first one the loop goes on and finds nothing |
| `AppPager.AppPager.Fault` | sdios/src/apppager/apppager.cc:30-48 | the faulting thread's space gets one frame, the first free one or a new one, and every frame stays on exactly one list |
| `DemandPager.DemandPager.Fault` | sdios/src/apppager/apppager.cc:30-89 | the frame given to the space is filled with the page, as the headers in the file slot say; the frames that spaces have keep what they hold |
| `DemandPager.DemandPager.DeleteAssociation` | sdios/src/apppager/apppager.cc:148-156 | when frames are freed, the frames of all other spaces still hold their pages |
| `DemandPager.FrameIsImage` | sdios/src/apppager/apppager.cc:38-89 | whatever requests came before, also when frames were freed and used again: every frame of a space equals its window of the eager image of the program that was in the file slot when it was filled, under the condition on segment data |
| `DemandPager.FrameIsProgram` | sdios/src/apppager/apppager.cc:38-89 | if the bytes in the file slot were an executable when the frame was filled, it holds the page of that program |
| `DemandPager.DemandPager.AssociateImage` | sdios/src/apppager/apppager.cc:97-113 | a new thread in a space of its own; its program takes the place of what was in the file slot |
| `DemandPager.SharedSlot` | sdios/src/apppager/util.cc:128-135 | two tasks; a page fault of the first one is then answered with a page of the program of the second, since the address of the next file slot is never advanced |
| `Elf.LoadImage` | sdios/src/root/main.cc:157-176 | memory after loading all segments in turn: data copied, the rest cleared, in word arithmetic |
| `Elf.ImageIsSegments` | sdios/src/root/main.cc:157-176 | for disjoint segments the image is each segment's data, and zeros everywhere else |
| `Elf.FillPage` | sdios/src/apppager/apppager.cc:38-89 | the frame holds what the pager copies for the page, byte by byte, and no other memory changes |
| `Elf.SameByte` | sdios/src/ram_dsm/bielfloader.cc:111-160 | a byte of a page that begins behind no segment's data is the byte of the eagerly loaded image |
| `Elf.BehindDataDiffers` | sdios/src/apppager/apppager.cc:64-78 | for a page that begins inside a segment but behind its data there is a file for which the two differ, because the length left wraps |
| `Elf.LazyIsEager` | sdios/src/apppager/apppager.cc:38-89 | for every content of the file, the page is the window of the eager image if and only if it begins behind no segment's data |
| `Executables.SegmentLayout` | sdios/include/elf.h:431-441 | where the fields of a program header are |
| `Executables.HeaderLayout` | sdios/include/elf.h:61-77 | where the header has the entry point and the place and number of the program headers |
| `Executables.ExecutableRead` | sdios/include/elf.h:61-77 | for every file whose bytes are those of an ELF header and of program headers, the loader reads back the entry point and, of each program header, type, offset, address and sizes |
| `Executables.WindowIsProgram` | sdios/src/apppager/apppager.cc:38-89 | a frame filled from such a file holds, for every address of the page, the segment's data from the file, or zero where no segment has data |
| `Elf.WindowIsImagePage` | sdios/src/ram_dsm/bielfloader.cc:111-160 | a whole page agrees with the eagerly loaded image |
| `RamDsm.RamDsm.GetFreePage` | sdios/src/ram_dsm/bielfloader.cc:55-63 | the lowest frame whose bit is set; that bit and no other is cleared; none exactly when no bit is set |
| `RamDsm.RamDsm.Fault` | sdios/src/ram_dsm/bielfloader.cc:95-169 | the headers are those of the module that the thread's first association names, or of record 0; a frame that was available is filled with the page's window, and frames mapped before are others and stay as they are; a panic or a read behind the records in exactly the stated cases |
| `RamDsm.RamDsm.FindHeader` | sdios/src/ram_dsm/bielfloader.cc:68-88 | finds where the executable of a boot record begins: panics for a record that is no module or a number that is too high, but reads behind the last record when it is too high by one |
| `RamDsm.MappedIsImage` | sdios/src/ram_dsm/bielfloader.cc:95-160 | after any faults in any order, also with more associations since: every mapped frame equals its window of the eager image, under the condition on segment data, and for a thread that was associated the image is that of the module its first association names |
| `RamDsm.MappedIsProgram` | sdios/src/ram_dsm/bielfloader.cc:95-160 | if the bytes of the module are an executable, every frame mapped for an associated thread holds the page of that program |
| `RamDsm.RamDsm.Append` | sdios/src/ram_dsm/bielfloader.cc:38-45 | adds behind the others, or panics with one place still free |
| `RamDsm.RamDsm.AssociateImage` | sdios/src/ram_dsm/bielfloader.cc:173-205 | the association is added before the module is looked up, so that it stays when that fails; the thread starts at the entry point that the bytes of the executable give |
| `RamDsm.RamDsm.CopyAssociation` | sdios/src/ram_dsm/bielfloader.cc:210-221 | the new association names the module of the other thread's first one, or 0 |
| `RamDsm.RamDsm.GetModuleId` | sdios/src/ram_dsm/bielfloader.cc:47-53 | the module of the thread's first association, or 0 when there is none |
| `RamDsm.AppendKeeps` | sdios/src/ram_dsm/bielfloader.cc:47-53 | a thread's first association decides; appending changes nothing for threads that have one |
| `Boot.IntersectionIsCommon` | sdios/util/kickstart/lib.h:54-62 | the three comparisons find every common address of a proper range with any other, and for two proper ranges nothing else |
| `Boot.DecodeEncode` | sdios/util/kickstart/kipmgr.cc:149-169 | the fields written into a descriptor are read back, and the other bits keep what they were |
| `Boot.FieldsRead` | sdios/util/kickstart/kipmgr.cc:183-190 | all five fields of any descriptor are read back from its two words, whatever the bits between them are |
| `Boot.MaxOnWords` | sdios/util/kickstart/kipmgr.cc:183-194 | the end of conventional memory on the words: the greatest limit of those with type 1 and bit 9 not set |
| `Boot.FreeOnWords` | sdios/util/kickstart/kipmgr.cc:233-275 | a region is free if and only if no address in it lies between the two words of an initial server, or in the range of a descriptor with bit 9 not set and a type other than 1, but for one of type 4 over all memory |
| `Boot.DecodedCovers` | sdios/util/kickstart/kipmgr.cc:161-162 | the range read back covers the range that was dedicated, by less than 1024 bytes more on each side |
| `Boot.KipManager.DedicateMemory` | sdios/util/kickstart/kipmgr.cc:149-169 | one descriptor more, with the given fields; all others and the rest of the page unchanged |
| `Boot.KipManager.GetPhysMemMax` | sdios/util/kickstart/kipmgr.cc:178-198 | the highest address of physical conventional memory, or 0 |
| `Boot.KipManager.GetMinPagesize` | sdios/util/kickstart/kipmgr.cc:206-221 | two to the lowest bit set from bit 10 on, or 0 for an empty word; the loop does not end exactly when only bits below are set |
| `Boot.KipManager.IsMemRegionFree` | sdios/util/kickstart/kipmgr.cc:233-275 | true exactly when the region meets no initial server and no descriptor that is neither conventional, virtual nor the shared one over all memory |
| `Boot.ModsAreaFree` | sdios/util/kickstart/mbi.cc:111-129 | true exactly when the region meets no module (end included) and not kickstart |
| `Boot.PassedIsDisjoint` | sdios/util/kickstart/mbi-loader.cc:146-162 | no address of a region that passes belongs to kickstart, a module, an initial server or a taken descriptor |
| `Boot.FindFreeRegion` | sdios/util/kickstart/mbi-loader.cc:146-162 | with enough conventional memory: a region is found exactly if there is one that ends below its end, at a multiple of the size, and the region at 0 does not pass; it is the lowest and begins at a multiple of the size, as the remainder tells. In any case: the step in which the search ends, in 64-bit arithmetic, or that it does not |
| `Boot.GoesOn` | sdios/util/kickstart/mbi-loader.cc:151 | a search that comes back to address 0 tries the same addresses again and never ends |
| `Boot.ZeroIsNowhere` | sdios/util/kickstart/mbi-loader.cc:151-161 | an interface page with which the region at 0 and the one behind it are free, and none is found |
| `Boot.Place` | sdios/util/kickstart/mbi-loader.cc:212-234 | room is found and dedicated with a descriptor that covers it unless it wraps, or nothing changes |
| `Boot.PlaceBoth` | sdios/util/kickstart/mbi-loader.cc:482-497 | if both sizes are at most the end of conventional memory, which is returned, bootinfo and the multiboot copy end below it and do not overlap; for larger sizes they do not overlap unless one wraps; neither meets kickstart, a module, an initial server or memory that a descriptor from before keeps free |
| `Boot.DedicatedIsOther` | sdios/util/kickstart/mbi-loader.cc:228-231 | a page the boot loader dedicated ends in sigma0's pool of other memory, unless a later descriptor of another kind covers it |
| `Multiboot.GetSize` | sdios/util/kickstart/mbi.cc:43-57 | the room set aside holds all that the copy writes, with exactly a word to spare for each string, and a byte more for one that is missing |
| `Multiboot.Copy` | sdios/util/kickstart/mbi.cc:66-100 | reading the copy gives the words, the command line and the modules of the original, with pointers into the copy; nothing outside its room is written |
| `Multiboot.InfoLayout` | sdios/util/kickstart/mbi.cc:66-100 | the words of the copy at their offsets: command line, number and address of the modules, and limits and command line of each |
| `Boot.RoundUp` | sdios/util/kickstart/mbi-loader.cc:181-183 | the size rounded up to pages, by less than a page |
| `Bootinfo.InitBootinfo` | sdios/util/kickstart/mbi-loader.cc:221-225 | an empty structure: its size and first entry are the header's size |
| `Bootinfo.PutModule` | sdios/util/kickstart/mbi-loader.cc:277-292 | a module's record with start, size, command line and the offset of the next record; nothing outside it is written |
| `Bootinfo.PutExec` | sdios/util/kickstart/mbi-loader.cc:263-274 | an executable's record with the section words, command line and the offset of the next record |
| `Bootinfo.PutMbi` | sdios/util/kickstart/mbi-loader.cc:504-509 | the record with the address of the multiboot information |
| `Bootinfo.RecordModules` | sdios/util/kickstart/mbi-loader.cc:249-302 | all modules but the kernel, one behind the other; count and size are kept up to date; nothing behind the last record is written, so that the page set aside is enough if the records, with the padding behind each, end inside it |
| `Bootinfo.RecordMbi` | sdios/util/kickstart/mbi-loader.cc:499-514 | one record more, behind the modules |
| `Bootinfo.FindModule` | sdios/src/ram_dsm/bielfloader.cc:79-88 | refused exactly when fewer entries are there; otherwise the record of that number, and for an index one too high the end of the structure, which is base plus size |
| `Bootinfo.WriteThenFind` | sdios/util/kickstart/mbi-loader.cc:482-514 | reading back what was written: entry number index is module index + 1 with start, size and command line intact, and the last is the multiboot record |
| `Bootinfo.HeaderLayout` | sdios/include/l4/bootinfo.h:332-339 | the words of the structure's header at their offsets |
| `Bootinfo.ModuleLayout` | sdios/include/l4/bootinfo.h:105-113 | the words of a module's record at their offsets, and the padding behind its command line |
| `Bootinfo.ExecLayout` | sdios/include/l4/bootinfo.h:144-162 | the words of an executable's record at their offsets, and the padding behind its command line |
| `Bootinfo.MbiLayout` | sdios/include/l4/bootinfo.h:314-320 | the words of the record that tells where the multiboot information is |
| `Bootinfo.RecordedKind` | sdios/util/kickstart/mbi-loader.cc:252-262 | only modules 1 and 2 are recorded as executables, unless all are decoded, and only if their sections were found |
| `Bootinfo.EntryStays` | sdios/include/l4/bootinfo.h:105-134 | a record can be read as before after writing elsewhere |
| `Bootinfo.AlignUpIsMask` | sdios/util/kickstart/kickstart.h:86-89 | rounding up to words is adding 3 and clearing the two lowest bits |
| `Keyboard.Keyboard.KeycodeToChars` | sdios/src/consoleserver/keymap.cc:165-241 | the buffer gets the key's characters for the modifiers that are down, stays terminated and within its cells; the modifiers change as the scancode says |
| `Keyboard.Keyboard.Shift` | sdios/include/stdlib.h:52-57 | moving the rest of the buffer down in place, over itself, loses nothing and keeps the terminator |
| `Keyboard.Keyboard.ProcessBuffers` | sdios/src/consoleserver/keyboard.cc:26-43 | up to seven characters leave the front of the buffer, in order, and are counted |
| `Keyboard.Keyboard.Read` | sdios/src/consoleserver/keyboard.cc:45-68 | characters at once, or the caller waits, or an empty answer while another waits; what was sent and what is in the buffer are always what was typed |
| `Keyboard.Keyboard.Interrupt` | sdios/src/consoleserver/keyboard.cc:72-113 | scancodes are decoded until there are no more or the buffer is full; a waiting reader is answered as soon as there is something; after it a reader waits only with an empty buffer |
| `Keyboard.TypedNext` | sdios/src/consoleserver/keymap.cc:165-241 | the characters typed by a series of scancodes are those of the series before and of the last code under the modifiers then down |
| `Keyboard.HeldKeys` | sdios/src/consoleserver/keymap.cc:165-203 | over any series of scancodes: control, alt and shift are down exactly if they were pressed last and not released since, caps lock holds shift, num lock and scroll lock change with every press |
| `Keyboard.KeyTyped` | sdios/src/consoleserver/keymap.cc:205-241 | over any series of scancodes: a key that is no modifier types its characters in the keymap for the keys that are held, any other code types nothing |
| `Numerals.Strtoul` | sdios/util/kickstart/lib.cc:166-225 | white space, sign, prefix, base and digits as the function takes them; the value saturated, the end pointer at the first character that does not belong |
| `Numerals.Accumulate` | sdios/util/kickstart/lib.cc:198-219 | the value of any run of digits saturated at the largest word, without overflow on the way |
| `Numerals.CutoffIsOverflow` | sdios/util/kickstart/lib.cc:198-213 | the comparison with cutoff and limit tells exactly when the next digit would overflow |
| `Numerals.DigitStringParsed` | sdios/util/kickstart/lib.cc:166-225 | a digit string of any length is parsed to its saturated value, and parsing stops at the terminator |
| `Numerals.TextParsed` | sdios/util/kickstart/lib.cc:166-225 | for every text of white space, sign, prefix, digits and what follows them, in every base or none: the saturated value, its complement behind a minus sign, and the place of the first character that does not belong |
| `Numerals.DigitValues` | sdios/util/kickstart/lib.cc:199-204 | digits, small and capital letters as digits; every other character is above all bases |
| `Numerals.DigitsDenote` | sdios/lib/io/print.cc:345-349 | the digits printed denote the number, without a leading zero unless it is 0 |
| `Numerals.PrintThenParse` | sdios/lib/io/print.cc:332-350 | every word printed in a base from 2 to 16 is parsed back to itself |
| `Padding.NumberIsLaid` | sdios/lib/io/print.cc:365-412 | spaces, sign, prefix, zeros, digits and spaces again: what is left without the padding is the sign, the prefix and the digits |
| `Padding.NumberExtents` | sdios/lib/io/print.cc:355-412 | at least precision digits and at least width characters; spaces in front only without the flags for left and zeros, behind only with the one for left; more zeros than the precision asks for only with the flag for zeros and not adjusted to the left, but for the one that `%#b` adds |
| `Padding.NumberLength` | sdios/lib/io/print.cc:355-412 | at least as long as the width and the precision; no longer than the width or than sign, prefix and digits with the zeros of the precision, whichever is more, but that `%#b` adds one, and a number adjusted to the left is padded as if its prefix were not there |
| `Padding.TooWide` | sdios/lib/io/print.cc:388-412 | a number with a prefix that is adjusted to the left is wider than asked for although it fits |
| `Padding.PaddedIsParsed` | sdios/lib/io/print.cc:314-413 | every word printed by an integer conversion with any flags, width and precision is parsed back to itself, up to the spaces behind it, with one exception: what `%#b` prints is not parsed at all |
| `Padding.PrintedIsParsed` | sdios/lib/io/print.cc:314-411 | what is not adjusted to the left is parsed up to the terminator |
| `Padding.NumberBegins` | sdios/lib/io/print.cc:318-399 | sign and prefix as the flags ask for them, behind the spaces |
| `Padding.SimpleConversions` | sdios/lib/io/print.cc:522-573 | `%c` prints the lowest byte, `%%` a percent sign, `%s` the string or `(null)`, and any other character is printed with the percent sign |
| `Padding.PlainConversion` | sdios/lib/io/print.cc:270-309 | what the seven integer conversions print is read back in base 2, 8, 16 or 10; exactly `%d` and `%i` print a minus sign, exactly `%X` capital letters |
| `Print.FillDigits` | sdios/lib/io/print.cc:345-349 | the conversion buffer holds the digits in reverse |
| `Print.Printer.PutCh` | sdios/lib/io/print.cc:134-138 | a character is written if there is space; otherwise printing ends with the space used up |
| `Print.Printer.PutNumber` | sdios/lib/io/print.cc:314-413 | padding, sign, prefix, zeros and digits of an integer, as far as there is space |
| `Print.Printer.PutString` | sdios/lib/io/print.cc:522-556 | padding and characters of a string, as far as there is space |
| `Formats.ConversionRead` | sdios/lib/io/print.cc:178-261 | a conversion written from flags in any order, a width, a precision and a length is read back as exactly these, with numbers taken from the arguments where it says so |
| `Formats.NumberExtent` | sdios/lib/io/print.cc:203-216 | a width or precision written in decimal stands for the number that is written, and only 0 begins with the digit that is also a flag |
| `Print.ParseConversion` | sdios/lib/io/print.cc:178-261 | the loops read what `Formats.ConversionRead` is about |
| `Print.Vsnprintf` | sdios/lib/io/print.cc:123-587 | the first size - 1 characters of what the format prints in unlimited space, then a terminator; cells behind the size are not touched |
| `Print.TruncationIsPrefix` | sdios/lib/io/print.cc:111-122 | what a smaller buffer holds is the beginning of what a larger one holds |

## Left out

- Regions.Pool.CarveAt: `memregion_t::allocate` is a method of the pool here and takes its region as an argument, because it changes the neighbours' links and frees the node; where a freed node's memory goes is not modelled.
- Regions.Pool.InsertNode: nodes are always available; sigma0's refill of its own node list (sdios/serv/sigma0/sigma0.cc:717-742) re-enters the allocator in the middle of an allocation.
- Sigma0.Sigma0.AllocatePageAt: a request has a size below 2^32, since the shift is undefined for larger ones.
- MemoryMap.DescPages: the lower limit is not above the upper one.
- Descriptors.ClaimsItsRange: a server's range is not empty; one that ends in the last page of the address space claims nothing, as `PageEnd` wraps.
- Sigma0.Sigma0.ApplyDescriptor: the lower limit of the descriptor is not above its upper limit.
- Sigma0.Sigma0.InitFromDescriptors: a descriptor's lower limit is not above its upper limit; the encoding of flexible pages in words is not modelled, a map item is its base.
- Heap.Heap.Alloc: header cells are kept in two arrays indexed by unit, and payload bytes are not part of the model but for their share in those cells (`Heap.Heap.WritePayload`).
- TaskServer.TaskServer.StartTask: messages to the system-call server, the pagers and the locator are left out; the tables are arrays of records linked by number; the control-block area does not reach the end of the address space.
- TaskServer.TaskServer.CreateThread: after a null pointer is used nothing is said about the tables; a thread number is taken after the record is found instead of before.
- TaskServer.TaskServer.WaitTid: a caller's id is not nil.
- AppPager.AppPager.AssociateImage: the range of file slots, the request to the file server, and the startup message are left out; records are never reused, so a deleted thread's record keeps its number.
- Elf.FillPage: what is read at the addresses of the executable does not change while pages are filled, so frames and executables do not overlap.
- Elf.LoadImage: the image is built in memory of its own, which the executable is not part of; the checks of the ELF header before, and that of the entry point, are left out.
- RamDsm.RamDsm.AssociateImage: the module's memory is asked from sigma0 elsewhere, and the startup message is left out.
- RamDsm.RamDsm.FindHeader: what is read behind the last record is not part of the model, the request ends there.
- DemandPager.DemandPager.DeleteAssociation: the file slot of a space that is given back is not unmapped.
- Boot.KipManager.DedicateMemory: the table has room, and the interface page has 32-bit words; the 64-bit layout is left out.
- Multiboot.Copy: the original is given by its contents, which the copy does not overlap; the memory from the copy on does not reach the end of the address space.
- Bootinfo.RecordModules: the records end before the address space does; the section words of an executable are given.
- Keyboard.Keyboard.Interrupt: the port reads are a sequence of scancodes, the LED update is left out, and the key table is any table of seven cells a key.
- Print.Vsnprintf: floating point, `%n`, `%p`, `%t` and 64-bit longs are left out, as are a size of 0 and formats that end inside a conversion, where the code runs past its buffer or format; the whole format is of this kind and has its arguments, also what a short buffer cuts off; width and precision do not overflow.
- Numerals.Strtoul: the base is 0 or from 2 to 36.
- Generated dispatch tables, IPC loops, system-call wrappers, the kernel debugger, console and VGA output, the shell, serial and port I/O: foreign calls and devices.
- The old-style initialiser of sigma0 (sdios/serv/sigma0/sigma0.cc:960-1014), which is compiled out.
- simplefs, nameserver, locator, logger and ramdisk: thin, and would only add easy members.

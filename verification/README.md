# The AMD64 memory core, its loaders and four small services, in Dafny

This project models how the kernel hands out physical memory on AMD64, builds and edits its page tables, carves up
memory at start-up and loads executables, and proves what those parts promise. Four independent services follow: the
CRC-32, number parsing and printing, the user-side memory copy and fill, and the call dispatch tables.

## How it is built

Physical memory is a sequence of frames of 512 64-bit words (`PhysicalMemory`); words are bounded naturals with
wrap-around written out (`Words`). The state of the memory core is one value, `Hal`: memory plus the static variables
of the frame allocator. Each kernel routine appears twice. A function on states follows the source branch by branch,
and the lemmas are about it. A method of `Machine.Kernel` or `Machine.Pe32Object` runs the source's own loops over
fields updated in place, and its `ensures` says that old state, new state and result are related by that function.

What the lemmas compare the code with is independent of it:

- the free list is the list of frames found by following the next pointers (`FrameAllocator.Chain`);
- translation is the processor's walk (`PageTables.Resolve`, Intel 64 SDM Volume 3A, sections 4.5 and 4.6), defined on
  places of the 4-level tree and gathering W, U and NX on the way down;
- `PagingProofs.Sound` is the invariant: the allocator is consistent, the tables are a tree of pairwise distinct frames
  that are in use, interior entries hold nothing above bit 51, and for every mapped page the rights gathered on the way
  are the leaf's own;
- `PagingProofs.Evolves(s, s', root, pages, held)` is what one step or a whole load did: `Sound` before and after, only
  `pages` changed their translation, every frame taken is a newly linked table or in `held`, and no frame in other
  hands was written;
- `Boot.Running` adds that all frames lie below the map limit and outside the image window, that the processor accepts
  every address below the limit, and that every page below the limit and outside the window translates to itself;
- `Demand.Cost` is what a load needs in frames: one a page and one for each table that is missing on the way to a page,
  counted on the tree before the load; `Demand.Reach` is how many pages the free frames pay for;
- `KernelRuns.Changed` is the set of pages a request is about to change, read off the state before it;
- `SectionLoader.NoFault` says of a copy that the processor writes at each of its addresses: bits 47 to 63 agree and the
  page shown there is writable memory.

What the code reads from bytes is compared with a writer of its own. `Packing` lays numbers out byte by byte, `PeLayout`
and `PefLayout` pack the structures of both formats field by field in the order of their declarations, and show that
every blob long enough is such a packing, that parsing gives the fields back, and which bytes of the file end up where
in memory. `NumberText.Written` builds texts from spaces, a sign, a prefix and a spelled value. The checksum and the
hash are tied to published values besides their laws.

The functions reach a table or a free frame by its frame number, where the kernel goes through the translation it runs
on. The two agree while `Reachability.PoolKept` holds: every frame of the pool is shown by the page of its own address.
A map, an unmap or a walk changes no page before the last entry it writes. A loop of maps does, so what is said of a
whole load asks that its pages leave the pool alone (`Reachability.Clear`), and `Reachability.LoopExact` and
`Pe32Proofs.ImageKeptExact` show that the pool stays reached before, between and after the steps exactly then.
`Running` implies `PoolKept`, and harmless requests keep it.

The main theorem is `KernelRuns.BootRunSpec`: after start-up and any sequence of harmless requests, reaching a table or
any other frame of the pool by its physical address still reaches that frame, and when no request strands a frame, the
frames in use are exactly the tables and the frames behind pages. `KernelRuns.RunRuns` and `KernelRuns.RunOwned` say
that these two conditions are exact, `KernelRuns.WindowRun` that staying in the image window is harmless, and
`Survival.RunLeaves` that a harmless run writes no frame in other hands and leaves every page alone that no request of
it changes, so what was loaded there stays.

## What the proofs found

- `pef_load_section` refuses a null source before it looks at `OffsetSize`, and `FindSymbol` passes null when
  `OffsetSize` is 0, so a section without content is never loaded from a blob, whatever its `VMSize`
  (`PefLoader.FindSymbolSpec`; `Witnesses.RefusedSection` is such a container).
- A roll-back leaves the pages it touched unmapped. It brings back what they showed exactly when they showed nothing
  (`LoadEffects.SectionRollback`, `LoadEffects.ImageRollback`). `FindSymbol` keeps no record of what it loaded, so every
  lookup of a symbol loads its section again: with a frame for each page that succeeds, and otherwise the first load
  still reads as its content exactly when there is no free frame at all (`LoadEffects.Reload`,
  `LoadEffects.FailedLoadOver`; in `Witnesses.LostSection` a section of 64 MiB fails and takes a loaded one with it).
- A section loaded again over itself leaves the frames of the first load in use with no page of the load showing them
  (`KernelRuns.ReloadStrands`; `Witnesses.LostFrame` is a kernel with no frame lost that loses one this way). A request
  loses a frame exactly when it changes every page that shows it (`KernelRuns.PerformOwned`).
- Both loaders count pages from the size alone. These pages cover the section exactly when its address modulo 4096 plus
  its size fits them (`PefLoader.CoveredExactly`). When they do not, the page after them shows what it showed before
  (`LoadEffects.TailUntouched`), unless content runs past them: then it overwrites what that page shows, or the kernel
  faults, exactly when that page is no writable memory (`LoadEffects.SpillSpec`).
- An image whose `ImageBase` is 0 loads but is forgotten at once, because 0 also means "not loaded"
  (`Pe32Proofs.LoadImageTwice`; `Witnesses.ForgottenImage` is such an image). The loader does not compare `ImageBase`
  with the image window, and an image breaks the identity map exactly when one of its pages is below the limit and
  outside the window (`KernelRuns.HoldingRuns`; `Witnesses.IdentityBroken`).
- Nor does it compare `ImageBase` with the pool. An image one of whose pages is a page the pool is reached by takes the
  kernel's own tables out of its reach between two maps (`Pe32Proofs.ImageKeptExact`; `Witnesses.PoolTaken` is such an
  image). Symbols are safe from this: `FindSymbol` loads inside the window only (`PefLoader.FindSymbolSpec`).
- Nor does it ask for addresses the processor accepts: copying the sections faults exactly when a byte of content goes
  to an address whose bits 47 to 63 differ (`Pe32Proofs.ImageFaults`).
- `pmmi_free_frame` does not notice a second free; it ties the free list into a ring (`FrameAllocator.FreeExact`).
- The boot-time tables identity-map everything below the limit exactly when the limit is at most 2^48, and the processor
  accepts these addresses only up to 2^47 (`KernelTables.IdentityReach`, `Boot.SetUpSpec`).
- `MmCopyMemory` is memmove except when it copies backwards by words and the length is not a multiple of 8
  (`SystemMemory.CopyIsMove`, `SystemMemory.SkewedExample`).
- A system call runs the earliest binding of its hash, a kernel call runs all of them
  (`Dispatch.InstalledTwice`, `Dispatch.KernelCallRunsOne`). The name hash is FNV-1a on names of characters below 0x80
  and never on names with exactly one from 0x80 on (`Dispatch.AsciiName`, `Dispatch.OneHighCharacter`).
- `StringToLong` reads as strtol of C11 does, but takes only ' ' for white space and accepts the "0b" prefix of C23.

## Model

| member | source | states |
|---|---|---|
| Boot.CarveSpec | private/minkernel/HALKit/AMD64/HalKernelMain.cpp:80-119 | for every handover region heap, pool and image window are pairwise disjoint, heap and pool fill the larger side the window leaves, the lower one when they are equal, the pool gets the odd byte, and the map limit is the first GiB boundary past the region, 4 GiB at least |
| Boot.SetUpSpec | private/minkernel/HALKit/AMD64/HalKernelMain.cpp:80-129 | for every region that ends by 2^47 start-up adopts tables exactly when the pool has the frames the identity map needs, and then the running invariant holds and the tables are the only frames in use; whenever it adopts tables, every address below the limit is accepted and translates to itself exactly for these regions |
| Boot.IdentityAddresses | private/minkernel/HALKit/AMD64/HalKernelMain.cpp:83-86 | in a running kernel every address below the limit and outside the window is accepted by the processor and translates to itself |
| Boot.PoolReachable | private/minkernel/HALKit/AMD64/HalKernelMain.cpp:83-107 | no byte of the frame pool lies in the window and each is accepted and translates to itself, which is what access to tables by physical address rests on |
| Boot.TablesInPool | private/minkernel/HALKit/AMD64/HalPagingMgr.cpp:188-224 | every table frame lies inside the pool |
| Boot.EvolvesRuns | private/minkernel/HALKit/AMD64/HalKernelMain.cpp:83-129 | a step keeps the kernel running exactly when the pages it changed that the kernel relies on still show their own frames |
| KernelRuns.PerformEffect | private/minkernel/HALKit/AMD64/HalPagingMgr.cpp:173-292 | each request (map, unmap, walk, PEF load, PE32 load) during which the kernel reaches its pool changes exactly the pages read off the state before it, to exactly the view asked for, and takes only tables and the frames of a load that succeeds |
| KernelRuns.KeptExact | private/minkernel/HALKit/AMD64/HalPagingMgr.cpp:185-224 | from a kernel that reaches its pool, the pool stays reached during a request exactly when it is not an image about to take a page the pool is reached by |
| KernelRuns.PerformRuns | private/minkernel/HALKit/AMD64/HalKernelMain.cpp:83-86 | a request keeps the kernel running, and the pool reached at each of its steps, exactly when it changes no page the kernel relies on, or maps it to itself |
| KernelRuns.MapRuns | private/minkernel/HALKit/AMD64/HalPagingMgr.cpp:233-263 | a map that succeeds keeps the kernel running exactly when its page is outside what the kernel relies on or shows its own frame again |
| KernelRuns.HoldingRuns | private/minkernel/src/PE32CodeMgr.cpp:276-287 | a load or its roll-back keeps the kernel running exactly when none of its pages is one the kernel relies on |
| KernelRuns.WindowHarmless | private/minkernel/HALKit/AMD64/HalKernelMain.cpp:83-86 | a request that stays in the image window is harmless in every state |
| KernelRuns.PerformOwned | private/minkernel/src/PEFCodeMgr.cpp:172-204 | after a harmless request every frame in use is a table or behind a page exactly when the request does not change all the pages of one |
| KernelRuns.ReloadStrands | private/minkernel/src/PEFCodeMgr.cpp:181-204 | after a section was loaded twice the first load's frames are in use, are no tables, and are shown by no page that did not show them before they were taken |
| KernelRuns.RunRuns | private/minkernel/HALKit/AMD64/HalPagingMgr.cpp:173-292 | over every run the kernel runs throughout, its pool reached during each request, exactly when every request is harmless |
| KernelRuns.RunOwned | private/minkernel/HALKit/Generic/HalPhysicalMemory.cpp:57-107 | over every harmless run no frame in use is ever lost exactly when no request strands one |
| KernelRuns.WindowRun | private/minkernel/HALKit/AMD64/HalKernelMain.cpp:83-86 | every run of requests that stay in the image window is harmless |
| KernelRuns.RunSpec | private/minkernel/HALKit/AMD64/HalPagingMgr.cpp:173-292 | over every harmless run the kernel ends running, and the used count has grown by the new tables plus the pages of the loads that succeeded |
| KernelRuns.BootRunSpec | private/minkernel/HALKit/AMD64/HalKernelMain.cpp:80-129 | from start-up through any harmless run: tables sound, accepted addresses and identity outside the window, every table in the pool and reachable at its physical address, the used count, and, when no request strands a frame, the frames in use are exactly the tables and the frames behind pages |
| Survival.RunLeaves | private/minkernel/HALKit/AMD64/HalPagingMgr.cpp:173-292 | over every harmless run a frame in other hands than the page-table manager's is never written, and pages that no request is about to change show what they showed |
| Survival.OutsideKept | private/minkernel/HALKit/AMD64/HalPagingMgr.cpp:173-292 | no harmless run writes memory outside the pool |
| Survival.SectionSurvives | private/minkernel/src/PEFCodeMgr.cpp:181-204 | a loaded section still reads as its content and zeros after every harmless run none of whose requests is about to change one of its pages |
| Survival.ImageSurvives | private/minkernel/src/PE32CodeMgr.cpp:252-317 | a loaded image still reads as its sections say after every such run |
| FrameAllocator.InitSpec | private/minkernel/HALKit/Generic/HalPhysicalMemory.cpp:36-53 | the allocator takes over exactly the whole frames inside the region, none in use, empty free list |
| FrameAllocator.InitAnew | private/minkernel/HALKit/Generic/HalPhysicalMemory.cpp:36-53 | whatever was allocated before, taking over a region with a whole frame in it forgets all of it, the free list too; over a region without one only the listed frames are left to allocate |
| FrameAllocator.AllocSpec | private/minkernel/HALKit/Generic/HalPhysicalMemory.cpp:57-86 | an aligned, zeroed frame that nobody held joins the frames in use and nothing else changes; or nothing changes and there is no frame left |
| FrameAllocator.FreeSpec | private/minkernel/HALKit/Generic/HalPhysicalMemory.cpp:90-107 | a frame in use goes to the head of the free list, and only its first word changes |
| FrameAllocator.FreeActs | private/minkernel/HALKit/Generic/HalPhysicalMemory.cpp:90-107 | giving back an address changes anything exactly when it is that of a frame handed out before |
| FrameAllocator.FreeExact | private/minkernel/HALKit/Generic/HalPhysicalMemory.cpp:90-107 | giving back a frame of the pool keeps the list a list exactly when the frame is in use |
| FrameAllocator.UsedCount | private/minkernel/HALKit/Generic/HalPhysicalMemory.cpp:80-104 | the used counter is the number of frames in use, and free plus used is the size of the region |
| FrameAllocator.RunSpec | private/minkernel/HALKit/Generic/HalPhysicalMemory.cpp:57-107 | over every legal run the intrusive list stays acyclic and duplicate-free inside the region and free plus used is constant |
| FrameAllocator.FreeThenAlloc | private/minkernel/HALKit/Generic/HalPhysicalMemory.cpp:57-107 | freeing and taking again gives the same frame zeroed, and leaves every other word of memory as it was |
| FrameAllocator.StoreSpec | private/minkernel/HALKit/Generic/HalPhysicalMemory.cpp:64-71 | writing to a frame in use, or outside the region, does not disturb the list threaded through the free frames |
| KernelTables.InitKernelTablesSpec | private/minkernel/HALKit/AMD64/HalPagingMgr.cpp:37-76 | succeeds exactly when the pool has the frames; then every page below the limit rounded up to a GiB maps to itself for the kernel only, no other page is mapped, and the frames taken are exactly the tables |
| KernelTables.NeededForLimit | private/minkernel/HALKit/AMD64/HalPagingMgr.cpp:44-68 | the frames taken are 1 + ceil(limit / 512 GiB) + ceil(limit / 1 GiB) |
| KernelTables.IdentityReach | private/minkernel/HALKit/AMD64/HalPagingMgr.cpp:37-76 | given the frames, every address below the limit translates to itself exactly when the limit is at most 2^48, and the processor accepts each of them as well exactly when it is at most 2^47 |
| Entries.Split2M | private/minkernel/HALKit/AMD64/HalPagingMgr.cpp:200-217 | entry i of a split 2 MiB page is a present 4 KiB page mapping the i-th frame with the same W, U, PWT, PCD, G and NX |
| Entries.Split1G | private/minkernel/HALKit/AMD64/HalPagingMgr.cpp:200-217 | entry i of a split 1 GiB page is a present 2 MiB page mapping the i-th part with the same attributes |
| Entries.SplitView | private/minkernel/HALKit/AMD64/HalPagingMgr.cpp:200-219 | what the processor finds at each part of a split page is what it found before, moved to that part |
| Entries.TableEntry | private/minkernel/HALKit/AMD64/HalPagingMgr.cpp:195-219 | a frame ored with table permissions is a present interior entry for that frame without bits above 51 |
| Entries.OpenEntry | private/minkernel/HALKit/AMD64/HalPagingMgr.cpp:220-222 | oring permissions into an interior entry keeps its target |
| Entries.LeafEntrySpec | private/minkernel/HALKit/AMD64/HalPagingMgr.cpp:245-256 | a page's entry holds the frame and exactly the requested policy bits |
| PagingProofs.WalkStepSpec | private/minkernel/HALKit/AMD64/HalPagingMgr.cpp:188-225 | one level: no page changes its translation, a frame taken is linked, the step fails only without a frame or without permission to allocate |
| PagingProofs.WalkSpec | private/minkernel/HALKit/AMD64/HalPagingMgr.cpp:173-228 | a walk, also one that runs out of frames half way, changes no page's translation, keeps tree and policy, links every frame it takes, and fails only when the pool is exhausted; without allocation it succeeds exactly when the last-level table is there |
| Demand.StepExact | private/minkernel/HALKit/AMD64/HalPagingMgr.cpp:192-222 | one level takes a frame exactly when no table sits there yet, and stops exactly when it needs one and there is none |
| Demand.WalkExact | private/minkernel/HALKit/AMD64/HalPagingMgr.cpp:173-228 | an allocating walk succeeds exactly when the free frames are at least the tables missing on its way, then takes exactly these and links them there, and otherwise takes all there are |
| Demand.MapExact | private/minkernel/HALKit/AMD64/HalPagingMgr.cpp:233-263 | a map of a frame succeeds exactly when its walk does, with the same count |
| Demand.MapPagesExact | private/minkernel/src/PEFCodeMgr.cpp:184-197 | the mapping loop gets past page j exactly when the free frames pay for the pages up to j and the tables missing for them |
| Demand.LoadExact | private/minkernel/src/PEFCodeMgr.cpp:184-197 | the mapping loop maps as many pages as the free frames pay for, and succeeds when they pay for all |
| Demand.LoadTakes | private/minkernel/src/PEFCodeMgr.cpp:184-197 | a mapping loop that succeeds takes exactly the pages and the tables missing for them |
| Reachability.LoopExact | private/minkernel/src/PEFCodeMgr.cpp:184-197 | from a kernel that reaches its pool, the pool stays reached before, between and after the steps of the mapping loop and its roll-back exactly when none of the pages the free frames pay for is one the pool is reached by |
| Reachability.HoldingPool | private/minkernel/src/PEFCodeMgr.cpp:172-197 | while pages are mapped or rolled back the pool is reached exactly when none of them is a page the pool is reached by |
| PagingProofs.MapSpec | private/minkernel/HALKit/AMD64/HalPagingMgr.cpp:233-263 | on success the page shows exactly the requested frame and policy and every other page is as before; otherwise the answer is that the data are invalid, no page changed, and the address was bad, with nothing changed at all, or the pool is exhausted |
| PagingProofs.UnmapSpec | private/minkernel/HALKit/AMD64/HalPagingMgr.cpp:278-292 | a page of a last-level table is unmapped and its frame returned; on an absent or large-page path the result is 0 and no page changes |
| PagingProofs.NoRoot | private/minkernel/HALKit/AMD64/HalPagingMgr.cpp:173-292 | without a root table a map fails with invalid data, an unmap returns 0, and nothing changes |
| Translation.GetPageAddrSpec | private/minkernel/HALKit/AMD64/HalPagingMgr.cpp:103-152 | the software translation is the processor's, and 0 where there is none |
| Translation.PlacesDiffer | private/minkernel/HALKit/AMD64/HalPagingMgr.cpp:188-227 | two addresses meet at one slot exactly when their page numbers agree modulo 2^36 |
| Translation.MapThenTranslate | private/minkernel/HALKit/AMD64/HalPagingMgr.cpp:233-263 | after a map with Present every address of the page translates to the frame plus its offset and every other address as before |
| Translation.UnmapAfterMap | private/minkernel/HALKit/AMD64/HalPagingMgr.cpp:278-292 | unmap returns the mapped frame, the page translates to nothing, every other address as before the map |
| LoaderProofs.MapPagesSpec | private/minkernel/src/PEFCodeMgr.cpp:184-197 | the mapping loop ends with fresh, distinct, zeroed frames behind all pages; or with exactly the pages it got through unmapped, no frame in its hands, and no more frames free than the pages alone need |
| SectionLoader.PageCountExact | private/minkernel/src/PEFCodeMgr.cpp:184-184 | the pages counted are the fewest that hold the size |
| LoaderProofs.UnmapPagesSpec | private/minkernel/src/PEFCodeMgr.cpp:172-178 | the roll-back gives every held frame back, so that the list starts with the first page's frame and goes on in page order, and leaves the pages unmapped |
| LoaderProofs.HoldingConserves | private/minkernel/src/PEFCodeMgr.cpp:181-204 | the rise of the used count is the tables newly linked plus the frames behind pages |
| ImageProofs.CopyImage | private/minkernel/src/AsciiUtils.cpp:46-60 | a copy to accepted addresses on held pages faults nowhere, lays the source over the image and changes no other byte |
| ImageProofs.SafeCopy | private/minkernel/src/AsciiUtils.cpp:46-60 | a bounded copy lays the source over the image when it fits its size, otherwise that many zeros, and leaves a null target alone |
| ImageProofs.ReadImage | private/minkernel/src/PEFCodeMgr.cpp:199-203 | reading through the translation reads the frames behind the pages |
| ImageProofs.LoadKept | private/minkernel/src/PEFCodeMgr.cpp:172-204 | a step that leaves the pages of a load alone leaves its bytes alone |
| PefContainer.ChecksExact | private/minkernel/src/PEFCodeMgr.cpp:150-163 | the checks in wrapping 64-bit arithmetic accept exactly the sections acceptable over unbounded integers |
| PefContainer.FindSectionExact | private/minkernel/src/PEFCodeMgr.cpp:134-169 | the search succeeds with a header exactly when it is the first of its kind and name and is acceptable |
| PefLayout.CommandsExist | private/minkernel/src/PEFCodeMgr.cpp:141-144 | every blob whose counted headers end inside it is a packing of such headers |
| PefLayout.FrontIs | private/minkernel/KernelKit/PEF.h:75-87 | parsing a packed container header gives its magic, ABI and count |
| PefLayout.CommandIs | private/minkernel/KernelKit/PEF.h:91-101 | parsing a section header packed field by field in declared order gives the fields that were packed |
| PefLayout.AcceptedExact | private/minkernel/src/PEFCodeMgr.cpp:117-131 | a container is accepted exactly when its magic is Open or nepO, its ABI 0x5046 and its count one to 64 headers that end inside the blob |
| PefLayout.OfferedExact | private/minkernel/src/PEFCodeMgr.cpp:134-169 | what the blob offers under a name is the first header whose kind and terminated name field agree, when the container is accepted and the header's fields are acceptable |
| PefContainer.FindSectionLoop | private/minkernel/src/PEFCodeMgr.cpp:134-169 | the loop finds exactly what the blob offers; no read leaves the blob |
| PefContainer.NameEq | private/minkernel/src/PEFCodeMgr.cpp:61-77 | name fields match exactly when they agree as terminated strings and the field is terminated |
| PefContainer.SameNameExact | private/minkernel/src/PEFCodeMgr.cpp:61-77 | two 256-byte fields agree exactly when both are terminated after the same characters; a field without a terminator agrees with nothing |
| PefContainer.StringLen | private/minkernel/src/PEFCodeMgr.cpp:64-68 | the bounded length is that of the characters before the first zero |
| PefContainer.MakeNameSpec | private/minkernel/src/PEFCodeMgr.cpp:80-114 | the name made is the prefix and the name with spaces turned to dollar signs, terminated inside the buffer |
| PefLayout.NameExact | private/minkernel/src/PEFCodeMgr.cpp:80-114 | the name is .code64, .data64 or .zero64 by kind, followed by the symbol's name with dollar signs for spaces; none is made exactly for another kind or a name of 249 characters or more |
| PefContainer.WriteName | private/minkernel/src/PEFCodeMgr.cpp:80-114 | the copies and the mangling loop fill the buffer with that name, or refuse |
| PefLoader.LoadSectionSpec | private/minkernel/src/PEFCodeMgr.cpp:181-204 | while the pool is reached, a load fails with invalid data without a source, fails for want of memory when the free frames do not pay for pages and missing tables, and otherwise succeeds; then the copy faults nowhere and every byte the pages cover reads as the content and zeros, from fresh frames; when it fails nothing is held and exactly the pages paid for are unmapped; the pool is reached afterwards |
| PefLoader.LoadsIsolated | private/minkernel/src/PEFCodeMgr.cpp:172-204 | whatever becomes of a second load on other pages, success or roll-back, the first section still reads as its content and zeros |
| PefLoader.FindSymbolSpec | private/minkernel/src/PEFCodeMgr.cpp:313-332 | for every blob and name: refused without any change exactly when the name cannot be made or the blob offers no section with content under it; otherwise it is the load of that section, during which the pool is reached throughout and which succeeds exactly when the free frames pay for it |
| PefLayout.FindLaid | private/minkernel/src/PEFCodeMgr.cpp:134-204 | on any blob with a container header and its section headers, the first header with the symbol's section name decides: refused without any change exactly when the container is not accepted or the header is not acceptable or without content, otherwise loaded exactly when the frames pay; then byte k of the section is the blob's byte Offset + k, and zeros follow |
| PefLayout.FindNone | private/minkernel/src/PEFCodeMgr.cpp:313-332 | a symbol for which no name can be made or no header is named is refused and nothing changes |
| PefLoader.AlignedIsCovered | private/minkernel/src/PEFCodeMgr.cpp:184-186 | the pages of a page-aligned section cover it |
| PefLoader.UncoveredTail | private/minkernel/src/PEFCodeMgr.cpp:184-200 | when the pages do not cover a section, its last byte lies on the page after them |
| PefLoader.CoveredExactly | private/minkernel/src/PEFCodeMgr.cpp:184-186 | the pages cover a section exactly when every byte of it lies on one of them |
| LoadEffects.TailUntouched | private/minkernel/src/PEFCodeMgr.cpp:184-203 | when content stays on the pages of an uncovered section, the page after them shows what it showed |
| LoadEffects.SpillSpec | private/minkernel/src/PEFCodeMgr.cpp:184-203 | when content runs past them, the copy faults nowhere exactly when the next page shows writable memory; then the covered bytes read as the content, every other page translates as before, and the rest has overwritten what the next page shows |
| LoadEffects.RollbackRestores | private/minkernel/src/PEFCodeMgr.cpp:172-197 | a roll-back brings back every page exactly when the pages it touched showed nothing |
| LoadEffects.SectionRollback | private/minkernel/src/PEFCodeMgr.cpp:181-197 | a section load that fails leaves the translation as it was exactly when the pages the free frames paid for showed nothing |
| LoadEffects.ImageRollback | private/minkernel/src/PE32CodeMgr.cpp:276-305 | an image load that fails, for frames or for a section, leaves the translation as it was exactly when the pages the free frames paid for showed nothing |
| LoadEffects.AfterRollback | private/minkernel/src/PEFCodeMgr.cpp:172-197 | after a roll-back the bytes of an earlier load read as before, except on the pages it touched, where nothing can be read |
| LoadEffects.FailedLoadOver | private/minkernel/src/PEFCodeMgr.cpp:181-204 | when a load fails after another succeeded, the first section still reads as its content exactly when the pages the free frames paid for are none of its own |
| LoadEffects.FailedImageOver | private/minkernel/src/PE32CodeMgr.cpp:276-305 | the same for an image that fails after a section was loaded |
| LoadEffects.Reload | private/minkernel/src/PEFCodeMgr.cpp:313-332 | loading a section again succeeds exactly when there is a frame for each page; when it does not, the first load survives exactly when there is no free frame at all |
| Pe32Loader.ChecksExact | private/minkernel/src/PE32CodeMgr.cpp:297-301 | the section checks accept exactly the sections whose raw range lies in the blob and target in the image |
| Pe32Proofs.ConstructedReady | private/minkernel/src/PE32CodeMgr.cpp:65-98 | a loader constructed without complaint can load exactly when its section table lies inside the blob, and its image size is within bounds |
| Pe32Proofs.CopySectionsSpec | private/minkernel/src/PE32CodeMgr.cpp:289-310 | the section loop faults nowhere and finishes exactly when every section fits, and then each image byte is that of the last section in table order covering it, else zero |
| Pe32Proofs.ImageFaults | private/minkernel/src/PE32CodeMgr.cpp:289-310 | once the pages of an image whose sections fit are mapped, copying them faults nowhere exactly when every byte of content goes to an address the processor accepts |
| Pe32Proofs.LoadImageSpec | private/minkernel/src/PE32CodeMgr.cpp:252-317 | while the pool is reached, a load fails for want of memory when the free frames do not pay for pages and missing tables, with invalid data when a section does not fit, and otherwise succeeds; then the copies fault nowhere and the image reads as its sections say; when it fails exactly the pages paid for are unmapped and nothing is held; the pool is reached afterwards |
| Pe32Proofs.NotReadyFails | private/minkernel/src/PE32CodeMgr.cpp:253-274 | a loader that has not loaded and is not ready fails with invalid data, and nothing changes |
| PeLayout.HeadersExist | private/minkernel/src/PE32CodeMgr.cpp:67-73 | every blob that the constructor does not refuse for its length is a packing of such headers |
| PeLayout.ConstructExact | private/minkernel/src/PE32CodeMgr.cpp:65-98 | the constructor accepts a blob exactly when its magic is MZ, its machine 0x8664, its subsystem 0x11 and its image size between 1 and 64 MiB |
| PeLayout.ReadyExact | private/minkernel/src/PE32CodeMgr.cpp:255-274 | a constructed loader can load exactly when its headers are for this kernel, it has a section, and its section table, behind an optional header of the size given, ends inside the blob |
| PeLayout.ParseIs | private/minkernel/KernelKit/PE.h:24-78 | parsing the executable, optional and section headers, packed field by field in declared order behind the DOS header, gives the fields that were packed |
| PeLayout.LaidOutLoads | private/minkernel/src/PE32CodeMgr.cpp:252-317 | on any blob with headers for this kernel the load succeeds exactly when every section's content lies inside the image and the blob and the frames pay for the pages; then byte VirtualAddress + k of the image is the blob's byte PointerToRawData + k, for the last section in table order that has content there, and zero where none has |
| Pe32Proofs.ImageKeptExact | private/minkernel/src/PE32CodeMgr.cpp:276-305 | from a kernel that reaches its pool, the pool stays reached before, between and after the steps of an image load, both roll-backs included, exactly when none of the pages the free frames pay for is one the pool is reached by |
| Pe32Proofs.LoadImageTwice | private/minkernel/src/PE32CodeMgr.cpp:253-253 | a second call changes nothing and returns the same address, exactly when the base is not 0 |
| Witnesses.ForgottenImage | private/minkernel/src/PE32CodeMgr.cpp:253-316 | a concrete image at base 0 and a machine that has just started: the image loads and the loader is as if it had not |
| Witnesses.IdentityBroken | private/minkernel/src/PE32CodeMgr.cpp:276-287 | the same image takes page 0 away from the identity map |
| Witnesses.PoolTaken | private/minkernel/src/PE32CodeMgr.cpp:276-287 | a concrete image at the base of the pool: the kernel that has just started does not reach its pool throughout the load |
| Witnesses.LostFrame | private/minkernel/src/PEFCodeMgr.cpp:181-204 | on the same machine a section of a page loads twice, and a kernel that had lost no frame has lost one |
| Witnesses.LostSection | private/minkernel/src/PEFCodeMgr.cpp:172-197 | on the same machine a section of a page loads, one of 64 MiB at its address fails, and the first no longer reads as its content |
| Witnesses.RefusedSection | private/minkernel/src/PEFCodeMgr.cpp:181-182 | a concrete container that offers an acceptable section of a page which is refused in every state |
| Witnesses.LoadedImage | private/minkernel/src/PE32CodeMgr.cpp:252-317 | a concrete file on the small machine: its image loads and shows the raw data of its section at the section's address |
| Witnesses.LoadedSection | private/minkernel/src/PEFCodeMgr.cpp:313-332 | a concrete container on the small machine: its code section loads and shows the bytes of the file, whatever they are |
| Machine.Kernel.PmmiInit | private/minkernel/HALKit/Generic/HalPhysicalMemory.cpp:36-53 | in place, as `FrameAllocator.Init` |
| Machine.Kernel.AllocFrame | private/minkernel/HALKit/Generic/HalPhysicalMemory.cpp:57-86 | in place, as `FrameAllocator.Alloc` |
| Machine.Kernel.FreeFrame | private/minkernel/HALKit/Generic/HalPhysicalMemory.cpp:90-107 | in place, as `FrameAllocator.Free` |
| Machine.Kernel.FillSplit | private/minkernel/HALKit/AMD64/HalPagingMgr.cpp:213-217 | the 512 stores write the whole frame of a split |
| Machine.Kernel.WalkPage | private/minkernel/HALKit/AMD64/HalPagingMgr.cpp:173-228 | the loop over the levels, in place, as `PagingManager.Walk` |
| Machine.Kernel.MapPageIn | private/minkernel/HALKit/AMD64/HalPagingMgr.cpp:233-263 | in place, as `PagingManager.MapPage` |
| Machine.Kernel.UnmapPageAt | private/minkernel/HALKit/AMD64/HalPagingMgr.cpp:278-292 | in place, as `PagingManager.UnmapPage` |
| Machine.Kernel.FillDirectory | private/minkernel/HALKit/AMD64/HalPagingMgr.cpp:68-72 | the 512 stores write the whole page directory of a GiB |
| Machine.Kernel.MapOneGiB | private/minkernel/HALKit/AMD64/HalPagingMgr.cpp:51-72 | one round of the loop, in place, as `KernelTables.MapGiB` |
| Machine.Kernel.BuildKernelTables | private/minkernel/HALKit/AMD64/HalPagingMgr.cpp:37-76 | the loop over the GiBs, in place, as `KernelTables.InitKernelTables` |
| Machine.Kernel.ChooseRegion | private/minkernel/HALKit/AMD64/HalKernelMain.cpp:80-99 | the reassignments of base and size, as `Boot.KeptRegion` |
| Machine.Kernel.SetUpMemory | private/minkernel/HALKit/AMD64/HalKernelMain.cpp:80-129 | the statements in order, as `Boot.SetUp` from the state before start-up, with the heap of `Boot.CarveUp` |
| Machine.Kernel.UnmapRange | private/minkernel/src/PEFCodeMgr.cpp:172-178 | the roll-back loop, in place, as `SectionLoader.UnmapPages` |
| Machine.Kernel.MapRange | private/minkernel/src/PEFCodeMgr.cpp:186-197 | the mapping loop with its roll-back, in place, as `SectionLoader.MapPages` |
| Machine.Kernel.CopyMemorySafe | private/minkernel/src/AsciiUtils.cpp:46-60 | the bounded copy and its clearing of the target on refusal, as `SectionLoader.CopySafe` |
| Machine.Kernel.LoadPefSection | private/minkernel/src/PEFCodeMgr.cpp:181-204 | in place, as `PefLoader.LoadSection` |
| Machine.Kernel.FindPefSymbol | private/minkernel/src/PEFCodeMgr.cpp:313-332 | in place, as `PefLoader.FindSymbol` |
| Machine.Pe32Object.CopySections | private/minkernel/src/PE32CodeMgr.cpp:289-310 | the section loop, in place, as `Pe32Loader.CopySections` |
| Machine.Pe32Object.LoadImage | private/minkernel/src/PE32CodeMgr.cpp:252-317 | memory and the loader's own field, in place, as `Pe32Loader.LoadImage` |
| Crc32.TableIs | private/minkernel/src/Crc32.cpp:15-47 | each of the 256 table entries is what eight bit-serial steps make of its index |
| Crc32.TableStepIs | private/minkernel/src/Crc32.cpp:60-60 | one turn of the loop feeds the eight bits of its byte, least significant first, whatever the Char's sign |
| Crc32.Calculate | private/minkernel/src/Crc32.cpp:53-63 | the loop computes the bit-serial CRC-32 of section 8 of RFC 1952; no input gives all ones, a length below 1 the CRC of nothing |
| Crc32.BurstDetected | private/minkernel/src/Crc32.cpp:53-63 | equal-length messages that differ only inside four consecutive bytes never share a checksum |
| Crc32.OneByteDetected | private/minkernel/src/Crc32.cpp:53-63 | equal-length messages that differ in exactly one byte never share a checksum |
| Crc32.EmptyMessage | private/minkernel/src/Crc32.cpp:53-63 | no bytes have the checksum 0 |
| Crc32.CheckValue | private/minkernel/src/Crc32.cpp:53-63 | the digits 1 to 9 have the checksum 0xCBF43926 |
| Crc32.Residue | private/minkernel/src/Crc32.cpp:53-63 | a message followed by four bytes has the checksum 0x2144DF1C exactly when they are the message's checksum, least significant byte first |
| NumberText.StringToLong | private/minloader/BootKit/Support.h:67-145 | the value of the longest digit run after spaces (only ' '), sign and a prefix (also "0b", as in C23) that a digit follows, clamped to long, and where reading stopped; a bad base gives 0 and stores nothing |
| NumberText.ReadsWritten | private/minloader/BootKit/Support.h:67-145 | spaces, a sign, a prefix and a spelled value, up to a character that is no digit of the base, read as the signed value clamped to long, and everything up to that character is read, for every radix |
| NumberText.ReadsNothing | private/minloader/BootKit/Support.h:78-87 | without digits after spaces and a sign the value is 0 and nothing is read |
| NumberText.ReadsHalfPrefix | private/minloader/BootKit/Support.h:88-95 | a prefix that no digit of its base follows reads as zero, up to its letter |
| NumberText.CaseLess | private/minloader/BootKit/Support.h:118-121 | texts that differ in case only read the same, to the same place |
| NumberText.SkipPrefix | private/minloader/BootKit/Support.h:88-110 | skipping the zero and the prefix letter first and looking for digits afterwards agrees with the standard's rule that a prefix counts only before a digit |
| NumberText.Digits | private/minloader/BootKit/Support.h:115-136 | the accumulator is the value of the digits read and never wraps; overflow is noticed exactly when the value leaves the range |
| NumberText.CutoffIs | private/minloader/BootKit/Support.h:112-134 | the cutoff test decides exactly whether the next digit passes the limit |
| NumberText.ToString | private/minkernel/src/AsciiUtils.cpp:123-140 | the buffer holds the numeral and its terminator and is otherwise untouched; a bad base or buffer changes nothing |
| NumberText.Reverse | private/minkernel/src/AsciiUtils.cpp:133-138 | the in-place reversal of the first n characters |
| NumberText.PrintThenParse | private/minkernel/src/AsciiUtils.cpp:118-140 | for bases 2 to 16 parsing a printed value gives min(value, LONG_MAX) and reads all of it |
| NumberText.PrintsSpelling | private/minkernel/src/AsciiUtils.cpp:118-131 | the printer's numeral is the spelling of the value in digits and capital letters |
| SystemMemory.CopyMemory | private/libSystem/src/System.cpp:19-80 | what each of the paths leaves in memory, in place |
| SystemMemory.CopyIsMove | private/libSystem/src/System.cpp:30-79 | the copy is memmove on every content unless the target starts inside the source, source and target end at a multiple of 8, and at least 8 bytes are copied that are no multiple of 8, and only then is it not |
| SystemMemory.SkewedLoses | private/libSystem/src/System.cpp:45-48 | in that case the first target byte keeps its old content |
| SystemMemory.SkewedAt | private/libSystem/src/System.cpp:38-48 | in that case what every byte of memory holds afterwards |
| SystemMemory.SkewedExample | private/libSystem/src/System.cpp:45-48 | nine bytes moved from address 7 to 15: the first is lost |
| SystemMemory.FillMemory | private/libSystem/src/System.cpp:92-120 | each byte of the target is the value and each other byte as it was, by words or by bytes |
| Dispatch.Hash | private/minkernel/ArchKit/ArchKit.h:104-118 | the loop computes the hash of the characters before the terminator; null and empty names have hash 0 |
| Dispatch.OneCharacter | private/minkernel/ArchKit/ArchKit.h:104-118 | names of one length that differ in exactly one character have different hashes |
| Dispatch.TurnInjective | private/minkernel/ArchKit/ArchKit.h:113-114 | a turn of the hash loses nothing: it is undone by the inverse of the prime modulo 2^64 |
| Dispatch.TurnIsFnv | private/minkernel/ArchKit/ArchKit.h:112-115 | a turn is one of FNV-1a exactly on characters below 0x80 |
| Dispatch.HighTurn | private/minkernel/ArchKit/ArchKit.h:112-115 | from 0x80 on a turn is one of FNV-1a on the hash with its upper 56 bits complemented |
| Dispatch.KnownHashes | private/minkernel/ArchKit/ArchKit.h:104-118 | the hash of the name a is the published FNV-1a value, and the hash of the single character 0x80 |
| Dispatch.AsciiName | private/minkernel/ArchKit/ArchKit.h:104-118 | the hash of a name of characters below 0x80 is its FNV-1a hash |
| Dispatch.OneHighCharacter | private/minkernel/ArchKit/ArchKit.h:104-118 | the hash of a name with exactly one character from 0x80 on never is |
| Dispatch.Table.Install | private/minkernel/ArchKit/ArchKit.h:122-140 | binds the first free slot, so the hooked slots stay a prefix that is never overwritten; -1 and no change for a missing name, a zero hash, a missing procedure or a full table |
| Dispatch.Table.SystemCall | private/minkernel/HALKit/AMD64/HalCoreInterruptHandler.cpp:145-158 | runs the earliest binding of the hash and no other, and nothing without a current user |
| Dispatch.Table.KernelCall | private/minkernel/HALKit/AMD64/HalCoreInterruptHandler.cpp:163-178 | runs every binding of the hash in order, for the root user with super rights only |
| Dispatch.InstallAllIs | private/minkernel/ArchKit/ArchKit.h:122-162 | after any run of installs the table holds the first 512 acceptable requests in the order they were made |
| Dispatch.NeverRebound | private/minkernel/ArchKit/ArchKit.h:122-162 | what a hash runs only ever grows at the end, so the earliest binding stays |
| Dispatch.NeverShadowed | private/minkernel/ArchKit/ArchKit.h:104-140 | installing any number of names one character away from a name does not change what that name runs |
| Dispatch.InstalledTwice | private/minkernel/HALKit/AMD64/HalCoreInterruptHandler.cpp:172-177 | a name installed twice adds both procedures, in order, to what a kernel call runs |
| Dispatch.KernelCallRunsOne | private/minkernel/HALKit/AMD64/HalCoreInterruptHandler.cpp:172-177 | at most one procedure runs exactly when the hash is bound at most once |

## Left out

- Concurrency: the allocator's spin flags and the order of concurrent calls; every call is one step.
- TLB and control registers: the TLB is coherent, CR3 is a parameter, writes need the W bit, the kernel may write to
  user pages, cache and fence helpers are absent.
- RAM below the addresses: reading an address without a frame gives 0 and writing it is lost; sources of copies and
  blobs are values, so a blob that lies in the image window or in the pool is outside the model.
- Page faults: what the kernel does in one is absent. A copied byte that faults leaves memory as it is in
  `SectionLoader.WriteVa`; what is proved of a copy comes with `SectionLoader.NoFault`, or says exactly when that fails.
- Loads that take pages the pool is reached by: the lemmas that use `Reachability.CanLoad` exclude them, and
  `Pe32Proofs.ImageKeptExact` says exactly which they are; what the kernel then reads instead of its tables is absent.
- PagingProofs.MapSpec: frames are assumed below 2^52, the reach of a page-table entry.
- KernelTables.InitKernelTablesSpec: stated for limits up to 2^48, past which `KernelTables.IdentityReach` shows the map
  cannot be the identity; limits in the topmost GiB of the 64-bit range, where the source would not stop, are excluded.
- Boot.SetUpSpec: how many frames the tables need is stated for regions that end by 2^47, past which it shows that the
  map is no identity the processor accepts; stopping the kernel when there are no tables is absent.
- FrameAllocator.FreeSpec: the frame is in use; the source does not notice a frame freed twice, and
  `FrameAllocator.FreeExact` shows that nothing is kept then.
- PefLoader.LoadSectionSpec: asks for content that stays on the pages mapped, which the source does not check;
  `LoadEffects.SpillSpec` says what happens otherwise. The address and sizes are those `PefContainer.SectionChecks` lets
  through, and the addresses accepted by the processor, as they are in the window.
- LoadEffects.SpillSpec: asks that the page after the section shows no table and no free frame, since content written
  there would be read as page-table entries or as the free list.
- PefLayout.FindLaid: as `PefLoader.LoadSectionSpec`.
- PeLayout.LaidOutLoads: as `Pe32Proofs.LoadImageSpec`.
- PefLoader.LoadsIsolated: the second load is on other pages; `LoadEffects.FailedLoadOver` and `LoadEffects.Reload` say
  what happens on the same ones.
- Pe32Proofs.LoadImageSpec: asks for an image that its pages cover, no section of which targets address 0, where the
  copy refuses to write, or an address the processor does not accept (`Pe32Proofs.ImageFaults`), and which leaves the
  pool alone (`Pe32Proofs.ImageKeptExact`); the source checks none of this.
- Pe32Proofs.CopySectionsSpec: as `Pe32Proofs.LoadImageSpec`.
- KernelRuns.BootRunSpec: requests are as the loads above ask, but for the pool, which harmless requests leave alone;
  the handover region ends by 2^47.
- KernelRuns.ReloadStrands: asks for content that stays on the pages mapped, as `PefLoader.LoadSectionSpec`.
- LoadEffects.SectionRollback: as `PefLoader.LoadSectionSpec`.
- LoadEffects.FailedLoadOver: as `PefLoader.LoadSectionSpec`, with pages that cover the first section.
- LoadEffects.Reload: as `LoadEffects.FailedLoadOver`.
- LoadEffects.ImageRollback: as `Pe32Proofs.LoadImageSpec`.
- LoadEffects.FailedImageOver: as `LoadEffects.FailedLoadOver` and `Pe32Proofs.LoadImageSpec`.
- Machine.Kernel.SetUpMemory: regions that end in the topmost GiB of the 64-bit range, where the source would not stop.
- The PEF constructor from a blob (at least three sections, a fifth magic byte), which only narrows the blobs
  `FindSymbol` sees, and the paths of both loaders that read from files.
- Accessed, dirty and PAT bits: a split drops them, as the source does, and `Entries` does not claim them.
- PE32 exports, entry points, and the loader objects' destructors.
- What bound procedures do when they run, and who may call install; the two tables differ in procedure type only.
- The bitmap heap, the process scheduler, file systems, other processors' paging, interrupts, timers, ACPI, graphics,
  debug output, EFI wrappers and system-call stubs.

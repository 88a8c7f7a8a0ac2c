# dumbvm frame table and address spaces, in Dafny

This project models the virtual-memory layer of an OS/161 kernel (`dumbvm.c`,
extended with a physical frame table) as pure Dafny functions over immutable
values, and proves what that layer promises.

- **Frame table** (`frames.dfy`). `vm_bootstrap` carves the physical range
  `[firstpaddr, lastpaddr)` into page-sized frames, all free. `getppages(1)`
  claims the lowest-indexed free frame. `alloc_kpages` maps it into the
  kernel segment (`PADDR_TO_KVADDR`). `free_kpages` finds the frame behind a
  kernel address and releases it according to its recorded group size.
- **Address spaces** (`addrspace.dfy`). `as_create` starts with no regions.
  `as_define_region` page-aligns a region and records it as region 1, then
  region 2, and refuses a third. `as_prepare_load` gives every page of both
  regions and of the twelve-page user stack its own frame. `as_destroy`
  returns all of them. `as_define_stack` reports the fixed stack top.
- **TLB** (`tlb.dfy`). The 64 software-visible (hi, lo) slots. The handler
  chooses the lowest invalid slot, or else the `tlb_random` victim.
  `as_activate` invalidates every slot.
- **Fault handler** (`fault.dfy`). `vm_fault` truncates the address to its
  page and dispatches on the fault kind. It checks the address-space
  assertions, classifies the page into region 1, region 2 or the stack, and
  looks up the frame in that region's page table. It then installs a
  translation: read-only for loaded code, dirty and valid otherwise.
- **Multi-frame allocation** (`contig.dfy`). The `getppages(n)` run search
  for `n > 1`, exactly as written. Next to it are the corrected first-fit
  search and the intended claim/release pair for a run.
- **Whole-system properties** (`system.dfy`). Arbitrary sequences of frame
  requests after bootstrap; the sixteen-page allocate/free scenario; a
  process loaded by the usual create → define-region → prepare-load path,
  taking faults.

Machine words are `Machine.Word` (0 ≤ x < 2³²). Every unsigned C expression
that can wrap is written with `Machine.Wrap`. Outcomes that stop the kernel
or the process are constructors of the result types:

- `panic` is `Unavailable(NoFreeFrame)` or `Fault.Panic`.
- An `array_get` outside the array is `Halted` or `Fault.Panic`.
- `sys__exit` is `Fault.Exited`.

Before bootstrap `getppages` hands the request to `ram_stealmem` and returns
the stolen address. That allocator is not part of this model, so the
outcome is `Unavailable(StealMem)`: it names the path taken, not a failure
of the source.

The bootstrap range comes in as parameters. `done_loading` is an input of
the handler, and so is the slot `tlb_random` would pick.

## Model

| member | source | states |
|---|---|---|
| `Machine.PageTrunc` | dumbvm.c:237 | masking with `PAGE_FRAME` yields the page-aligned address of the page that contains the input |
| `Machine.PaddrToKvaddr` | dumbvm.c:174 | `PADDR_TO_KVADDR` maps a physical address below 2 GiB to the kernel-segment address at that offset from `MIPS_KSEG0`, and keeps the offset within the page |
| `Machine.KvaddrRoundTrip` | dumbvm.c:189 | `addr - MIPS_KSEG0` undoes the kernel-segment mapping of every physical word |
| `Frames.BootFrames` | dumbvm.c:78-86 | bootstrap yields ⌊(last − first) / PAGE_SIZE⌋ frames, frame i at first + i·PAGE_SIZE, all free with group size 0 |
| `Frames.Bootstrap` | dumbvm.c:68-92 | `vm_bootstrap` marks the table booted and records ⌊(last − first) / PAGE_SIZE⌋ frames, frame i vacant at first + i·PAGE_SIZE |
| `Frames.BootstrapWellFormed` | dumbvm.c:68-92 | after bootstrap the table is marked booted; its frames are distinct, ascending, all free, inside the range, and page-aligned when the range start is |
| `Frames.FirstFree` | dumbvm.c:110-121 | the scan stops at the lowest free frame; `None` means no frame from the start point is free |
| `Frames.GetPPage` | dumbvm.c:97-124 | before bootstrap memory is stolen; otherwise it succeeds exactly when some frame is free, hands out the lowest free frame's address, and marks only that frame taken with group size 1; with no free frame it panics |
| `Frames.GetPPagePreservesInv` | dumbvm.c:110-120 | a single-frame allocation keeps frame addresses unchanged, keeps them distinct and keeps group sizes consistent |
| `Frames.GetPPageCount` | dumbvm.c:106-123 | a booted allocation succeeds iff the free count is positive, and lowers it by exactly one |
| `Frames.FirstWithAddr` | dumbvm.c:187-195 | the release scan stops at the first frame whose address matches; `None` means no frame matches |
| `Frames.FreeKpages` | dumbvm.c:177-210 | before bootstrap, or for an unknown address, nothing changes; the first matching frame of group size 1 alone becomes free; group size 0 changes nothing; the kernel stops exactly when the first matching frame has a group of two or more; on an invariant table the result is that frame's address freed |
| `Frames.FreeKpagesPreservesInv` | dumbvm.c:184-207 | on a table built by single-frame allocations a release always completes and keeps the invariant |
| `Frames.AllocFreeRoundTrip` | dumbvm.c:180-194 | releasing the kernel address of a just-allocated frame restores the table exactly |
| `Frames.AllocKpage` | dumbvm.c:166-175 | `alloc_kpages(1)` fails exactly when `getppages(1)` does, leaves the same table, returns 0 for physical address 0, and for every other frame an address that `addr - MIPS_KSEG0` maps back to it |
| `Frames.KpageRoundTrip` | dumbvm.c:166-175 | `alloc_kpages(1)` returns a kernel address whose `free_kpages` restores the table |
| `AddressSpace.Create` | dumbvm.c:365-385 | `as_create` gives both regions base 0 and size 0 and all three page tables empty |
| `AddressSpace.FreshSpace` | dumbvm.c:365-385 | a new space has empty tables and no regions: the first definition always lands in region 1, and destroying it releases nothing |
| `AddressSpace.AlignRegion` | dumbvm.c:450-457 | the recorded base is the page of `vaddr`; the extent always fits in a word; without wrap-around the pages cover `[vaddr, vaddr+sz)` with no page to spare, and their count is the rounded-up page count |
| `AddressSpace.DefineRegion` | dumbvm.c:444-498 | region 1 is filled while its base is 0, else region 2 while its base is 0; otherwise it fails with `EUNIMP` and the space is unchanged; page tables are never touched |
| `AddressSpace.ThirdRegionRefused` | dumbvm.c:493-497 | after two regions at non-zero page bases both definitions succeed and a third fails with `EUNIMP`, leaving both regions as they were |
| `AddressSpace.ZeroBaseRegionOverwritten` | dumbvm.c:465-481 | a region whose aligned base is 0 leaves region 1 looking undefined, so the next definition overwrites it |
| `AddressSpace.AllocPages` | dumbvm.c:515-520 | one region's loop appends pages at base + i·PAGE_SIZE in order, keeps frame addresses, and stops where `getppages` returns no frame of the table (`NoFreeFrame` for its panic, `StealMem` for the stealing path before bootstrap) |
| `AddressSpace.AllocPagesEffect` | dumbvm.c:515-520 | the region's pages get n distinct frames, all previously free; the new table is the old one with exactly those frames claimed; it succeeds iff n frames are free |
| `AddressSpace.ExtendTable` | dumbvm.c:515-520 | one loop of the load extends the table it is given by the region's pages, keeps frame addresses, and stops where `getppages` returns no frame of the table, with the same reason |
| `AddressSpace.PrepareLoad` | dumbvm.c:507-535 | on success the regions are unchanged, and the code, data and stack tables are each extended by one page per region page at the region's virtual addresses, over a booted table with the same frames; `LoadFailed` carries the reason `getppages` returned no frame of the table |
| `AddressSpace.PrepareLoadEffect` | dumbvm.c:507-535 | from empty tables: all three tables are laid out, every page has a distinct frame drawn from the free ones, exactly those are claimed, and a booted load succeeds iff npages1 + npages2 + 12 frames are free |
| `AddressSpace.FreePages` | dumbvm.c:390-395 | one loop of `as_destroy`: before bootstrap or on an empty table nothing changes; a completed release keeps the booted flag and every frame address; `FreePagesEffect` states which frames are freed |
| `AddressSpace.Destroy` | dumbvm.c:387-412 | `as_destroy`: before bootstrap or with empty tables nothing changes; a completed destroy keeps the booted flag and every frame address; `DestroyEffect` states which frames are freed |
| `AddressSpace.FreePagesEffect` | dumbvm.c:390-395 | releasing a page table, last entry first, on an invariant table always completes and frees exactly the frames it names; before bootstrap it changes nothing |
| `AddressSpace.DestroyEffect` | dumbvm.c:387-412 | `as_destroy` always completes and frees exactly the frames of the code, data and stack tables, touching no other frame |
| `AddressSpace.DestroyEmptyFreesNothing` | dumbvm.c:387-412 | destroying a space with empty tables leaves the table unchanged |
| `AddressSpace.LoadDestroyRoundTrip` | dumbvm.c:507-535 | destroying a freshly prepared space gives back the frame table as it was before the load |
| `AddressSpace.DefineStack` | dumbvm.c:544-551 | `as_define_stack` always succeeds, reporting the end of the twelve stack pages as the stack pointer |
| `AddressSpace.StackTopIsEndOfStackPages` | dumbvm.c:544-551 | the reported stack pointer is `USERSTACK`, exactly the end of the twelve stack pages |
| `Tlb.FirstInvalid` | dumbvm.c:327-331 | the slot scan stops at the first slot without the valid bit |
| `Tlb.ChosenSlot` | dumbvm.c:327-358 | the handler writes the lowest invalid slot, and the `tlb_random` victim only when every slot is valid |
| `Tlb.Install` | dumbvm.c:326-356 | the entry is written into the chosen slot (`tlb_write` at the lowest invalid slot, else `tlb_random`) and every other slot is unchanged |
| `Tlb.Activate` | dumbvm.c:414-436 | with an address space every slot becomes invalid with a distinct kernel-segment hi word; without one the TLB is unchanged |
| `Fault.PageIndexInRegion` | dumbvm.c:298-299 | inside a region that fits in a word, the computed page index is in range and names the page that contains the address |
| `Fault.Classify` | dumbvm.c:298-318 | region 1 is checked first, then region 2, then the stack; every other address is unmapped; the index locates the page inside its region |
| `Fault.VmFault` | dumbvm.c:227-362 | READONLY exits the process with status 2; unknown kinds give `EINVAL`; no process or no address space gives `EFAULT`; on a set-up space `EFAULT` is returned iff the page is outside all three ranges; the kernel stops exactly when the space fails the assertions at 275-284, or a mapped page has no table entry (the `array_get` bounds check) or an unaligned frame (line 321); no other error code arises; a resolved fault writes the chosen slot with the looked-up frame and leaves every other slot alone |
| `Fault.NewEntryFlags` | dumbvm.c:332-344 | the installed lo word is valid and names the frame; it is dirty unless the page is in region 1 and loading is done |
| `Fault.SamePageSameFrame` | dumbvm.c:237 | two resolved faults on the same page install the same virtual page and the same frame |
| `Fault.MappedEntryIsPage` | dumbvm.c:299-301 | in a table laid out from an aligned base, the entry at the computed index is the page that holds the address |
| `Fault.PreparedLookup` | dumbvm.c:298-315 | on a prepared, set-up space the lookup for a mapped page exists, is that page, and belongs to the space |
| `Fault.PreparedFaultResolves` | dumbvm.c:298-315 | on a prepared, set-up space with aligned frames every mapped address resolves to the table entry of exactly its own page |
| `Fault.FaultAfterActivate` | dumbvm.c:431-433 | after a flush the next resolved fault lands in slot 0 and leaves all other slots invalid |
| `ContiguousRun.RunSearchAsWritten` | dumbvm.c:129-142 | the run search exactly as written; no contract of its own; `AsWrittenAlwaysSecondFrame`, `AsWrittenHitBeforeLast` and `AsWrittenMissesFinalRun` state what it computes |
| `ContiguousRun.AsWrittenAlwaysSecondFrame` | dumbvm.c:129-142 | on a bootstrap-laid table the run search as written, when it hits, always returns the second frame's address |
| `ContiguousRun.AsWrittenMissesRun` | dumbvm.c:129-142 | three free frames, two requested: as written returns 0x64000, the first fit starts at 0x63000 |
| `ContiguousRun.AsWrittenHitBeforeLast` | dumbvm.c:129-142 | whenever the search as written hits, the npages frames just before the hit index are free, so the run it reacts to ends before the last frame |
| `ContiguousRun.AsWrittenMissesFinalRun` | dumbvm.c:129-142 | when every run of npages free frames ends at the last frame, the search as written reports nothing, while the first fit finds that run |
| `ContiguousRun.FinalRunInstance` | dumbvm.c:129-142 | with 0x63000 taken and 0x64000, 0x65000 free, two requested: as written reports nothing, the first fit starts at index 1 |
| `ContiguousRun.RunScan` | dumbvm.c:129-142 | the corrected streak scan returns the lowest start of n free frames, or reports that there is none |
| `ContiguousRun.FirstFitRun` | dumbvm.c:125-142 | intended (corrected) search: the lowest run of n free frames, or `None` exactly when no run exists |
| `ContiguousRun.AllocRun` | dumbvm.c:125-162 | intended `getppages(n)`: succeeds iff a run exists, returns its first frame's address, marks the run taken with the size on its first frame |
| `ContiguousRun.FreeRun` | dumbvm.c:195-206 | intended group release: before bootstrap or for an unknown address nothing changes; otherwise exactly the frames from the first matching frame through its recorded group size become vacant, every other frame is unchanged, and addresses are kept |
| `ContiguousRun.AllocRunFreeRoundTrip` | dumbvm.c:195-206 | intended allocate/release pair: releasing the address of an allocated run restores the table exactly (the group loop as written halts instead) |
| `ContiguousRun.AllocRunTakesExactlyRun` | dumbvm.c:144-160 | intended run allocation: it takes exactly the n run frames out of the free pool |
| `System.RunPreservesInv` | dumbvm.c:97-207 | across any sequence of single-frame allocations and releases the table keeps its invariant and its addresses, and stops only when an allocation finds no free frame |
| `System.BootedRunFramesDisjointInRange` | dumbvm.c:68-92 | after bootstrap and any such sequence the frames stay distinct, page-aligned and inside the physical range |
| `System.NextOfPrefix` | dumbvm.c:110-120 | with the first m frames taken the next allocation returns frame m |
| `System.SixteenPageScenario` | dumbvm.c:106-123 | over sixteen pages four allocations return the first four pages in order; freeing the second and allocating again returns it |
| `System.ReallocAfterFree` | dumbvm.c:184-194 | freeing frame j of a taken prefix makes it the next frame handed out |
| `System.LoaderSpaceSetUp` | dumbvm.c:275-284 | two regions at or above the first page, with non-zero, non-wrapping sizes, satisfy every assertion the handler makes |
| `System.LoadedPagesAligned` | dumbvm.c:321 | frames handed to a space loaded from a table of page-aligned frames are page-aligned, so the handler's alignment assertion holds |
| `System.LoadedFaultResolves` | dumbvm.c:298-345 | a set-up space loaded from page-aligned frames resolves every fault inside its regions to the page that holds it |
| `System.LoadedProcessFaultsResolve` | dumbvm.c:298-345 | for a loaded process every fault inside a region resolves and installs the frame recorded for exactly the faulting page |

## Left out

- Locks, spinlocks and `splhigh`/`splx`: every operation is modelled as atomic.
- `ram_stealmem` and `ram_getsize`: the pre-bootstrap allocation is the `StealMem` outcome, and the physical range is a parameter of `Bootstrap`.
- `kmalloc` of frame and page records, and the `NULL` return of `as_create`: allocation of kernel records is assumed to succeed.
- The `as_pbase1`, `as_pbase2` and `as_stackpbase` fields: `as_create` sets them to 0 and nothing changes them, so the assertions at lines 510-512 always hold and are not modelled; `as_copy` also reads them (lines 582-592).
- `as_copy`, `vm_tlbshootdown` and `vm_tlbshootdown_all` are not part of this model: the first is a separate copy path, and the other two only panic.
- `as_deactivate` and `as_complete_load` do nothing. The `done_loading` flag is never initialised, and only the left-out `as_copy` assigns it (copying the old space's value), so it is an input of `Fault.VmFault`.
- The bootstrap loop test `firstpaddr + PAGE_SIZE <= lastpaddr` is taken without 32-bit wrap-around. The range is fixed well below 2³² in the source.
- `sys__exit` on a read-only fault is taken not to return. The source has no `break` after it and relies on that.
- The assertion at line 322 (`paddr >= firstpaddr || paddr <= lastpaddr`) holds for every address and is not modelled.
- The marking loop of the multi-frame branch (lines 144-160) has the guard `index < npages + index`, which stays true for every `npages` of at least 1, so it walks off the table into `array_get`'s bounds assertion; it is not modelled as written, nor is its write on line 154, which clears the leading frame's group size instead of the member's. Only the search before it is modelled as written, in `ContiguousRun.RunSearchAsWritten`.
- The group loop of `free_kpages` (line 198) has the guard `index < group_size + index`: false at once for group size 0, which `Frames.FreeKpages` models as no change, and true for ever for two or more, which it models as `Halted`.
- `array_get`'s bounds check, `PAGE_FRAME`, `PADDR_TO_KVADDR`, `TLBHI_INVALID`, `TLBLO_*`, `NUM_TLB` and the `VM_FAULT_*` codes come from OS/161 headers that are not part of this model. Their standard OS/161 MIPS values are used. The errno codes are a datatype without numeric values.
- `ContiguousRun.FirstFitRun`: requires n ≥ 1, because a request for zero frames never reaches the multi-frame branch in any caller.
- `AddressSpace.PrepareLoad`: stops with `LoadFailed(StealMem)` at the first allocation before bootstrap, where the source takes a stolen frame from `ram_stealmem` and carries on; the stealing allocator is not part of this model.
- `Frames.KpageRoundTrip`: only covers a non-zero returned address, because the source treats 0 as failure.

## Findings

| source | as written | input that shows it | evidently intended | confidence | as-written member | corrected member |
|---|---|---|---|---|---|---|
| dumbvm.c:129-142 | the run search tests `avail_frames == npages` before looking at frame i, and sets `pa = f->paddr - PAGE_SIZE*(i-1)` | frames 0x63000, 0x64000, 0x65000 all free and `npages` = 2: the loop hits at i = 2 and returns 0x64000, not 0x63000; on a bootstrap-laid table every hit returns the second frame's address wherever the run lies; with 0x63000 taken and the other two free no hit happens at all, because the run ends at the last frame | the address of the first frame of the lowest run of `npages` free frames | not executed | `ContiguousRun.AsWrittenAlwaysSecondFrame` | `ContiguousRun.FirstFitRun` |

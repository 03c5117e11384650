# dumbvm: frame allocator, address spaces and TLB refill

This project models the virtual-memory layer of the OS/161 kernel's MIPS
port as it stands in `dumbvm.c`, built with the `OPT_A3` option. It proves
properties of the model. The layer has three parts.

- **The physical frame allocator** (`vm_bootstrap`, `getppages`,
  `alloc_kpages`, `free_kpages`), in `framemap.dfy`. RAM from
  `physmap_begin` to `physmap_end` is split into `num_of_frames` frames. The
  first page of RAM holds an `int` map with one slot per frame; the model
  requires the map to fit in that page. Slot 0 means
  free. An allocated run of n frames holds 1, 2, ..., n. Slot `i` stands for
  the frame at `physmap_begin + (i + 1) * PAGE_SIZE`. Allocation is a
  first-fit scan for n consecutive free slots. Freeing starts at a run's
  first slot and clears slots until the next one holds 0 or 1. The class
  `PhysMap` holds the file-scope statics, with the map as an `array<int>`
  mutated in place. The first-fit choice, marking, clearing and the end of a
  run are specification functions on `seq<int>`.
- **The address space** (`as_create`, `as_define_region`,
  `as_prepare_load`, `as_complete_load`, `as_define_stack`, `as_copy`,
  `as_destroy`), in `addrspace.dfy`.
  - The class `AddrSpace` has the fields of `struct addrspace`: two regions
    and a 12-entry stack. Each region has a base, a page count and an array
    with one physical frame per page.
  - The `as_loaded` flag is the field `loaded`.
  - Page contents live in `PhysMem` (`physmem.dfy`), a map from frame
    address to page bytes, so `bzero` and `memmove` can be stated.
  - The proofs show which map slots the address-space routines take and
    free, that a prepared space owns each of its frames as a one-frame run,
    that `as_prepare_load` and `as_copy` fail with ENOMEM exactly when fewer
    frames are free than the space has pages, and that `as_copy` puts a
    byte-identical copy of every page into frames that were free before the
    call.
- **The TLB** (`vm_fault`, `as_activate`), in `tlb.dfy`. The TLB is an
  array of `NUM_TLB` entries of two 32-bit words. `tlb_random` writes a slot
  of the hardware's choosing, modelled by a nondeterministic choice. The
  region tests of `vm_fault` are a pure function, `Translate`, in 32-bit
  arithmetic. The refill loop installs the entry in the lowest invalid slot,
  or in a random slot when every slot is valid.

The source depends on `addrspace.h`, `errno.h` and the MIPS TLB headers,
which are not part of this model. The field types of `struct addrspace`
follow their use in `dumbvm.c`. The error numbers are a datatype. The TLB
bits `TLBLO_VALID` (0x200), `TLBLO_DIRTY` (0x400) and the invalid high word
`(0x80000 + i) << 12` are those of the OS/161 MIPS port.

Some behaviours of the code that the model keeps as written:

- `as_complete_load` does nothing, so `loaded` stays false.
- Each slot of an allocated run holds its position in the run, 1 to n.
- `as_prepare_load` returns ENOMEM at the first failed allocation and keeps
  the frames it has already taken.
- `as_define_region` returns EUNIMP for a third region.
- `vm_fault` translates a page as the window's first frame plus the page's
  offset, not through the page's own frame. `TranslateUsesFirstFrame`
  states when the two agree.

## Model

| member | source | states |
|---|---|---|
| VmTypes.PageFrame | os161-1.99/kern/arch/mips/vm/dumbvm.c:285 | masking with PAGE_FRAME gives the page-aligned address at or below the input, less than a page below it |
| VmTypes.ZeroPage | os161-1.99/kern/arch/mips/vm/dumbvm.c:566-568 | the page `bzero` leaves is PAGE_SIZE zero bytes |
| FrameMap.FirstFitFrom | os161-1.99/kern/arch/mips/vm/dumbvm.c:133-160 | the result is the lowest start of n free slots at or after j; no lower start exists; None exactly when there is no such run |
| FrameMap.FirstFitIsLowest | os161-1.99/kern/arch/mips/vm/dumbvm.c:133-160 | first fit picks i if and only if i starts a free run of n slots and no smaller index does |
| FrameMap.SingleFitFailsIffExhausted | os161-1.99/kern/arch/mips/vm/dumbvm.c:133-160 | a one-frame request finds no run if and only if no slot of the map is free |
| FrameMap.FreeCountZero | os161-1.99/kern/arch/mips/vm/dumbvm.c:133-160 | the count of free slots is 0 if and only if no slot is free |
| FrameMap.TakeOneFree | os161-1.99/kern/arch/mips/vm/dumbvm.c:142-146 | giving a free slot a nonzero value lowers the count of free slots by one |
| FrameMap.Mark | os161-1.99/kern/arch/mips/vm/dumbvm.c:142-146 | marking keeps the map's length and changes only slots of the chosen run, each to a run value of at least 1 |
| FrameMap.MarkStep | os161-1.99/kern/arch/mips/vm/dumbvm.c:142-146 | writing value j + 1 into the next slot extends a marked run of j slots by one |
| FrameMap.MarkOnlyTakesFreeSlots | os161-1.99/kern/arch/mips/vm/dumbvm.c:142-146 | allocation changes only slots of the chosen run, all of them free before, and leaves none of them 0 |
| FrameMap.MarkKeepsWellFormed | os161-1.99/kern/arch/mips/vm/dumbvm.c:142-146 | marking a free run keeps the 1..n run encoding at every slot |
| FrameMap.RunEnd | os161-1.99/kern/arch/mips/vm/dumbvm.c:252-256 | the freeing walk stops at the first later slot holding 0 or 1, or at the end of the map; every slot it passes holds neither |
| FrameMap.RunEndAfterMark | os161-1.99/kern/arch/mips/vm/dumbvm.c:252-256 | the walk from the first slot of a freshly allocated run of n stops exactly n slots later |
| FrameMap.AllocFreeRoundTrip | os161-1.99/kern/arch/mips/vm/dumbvm.c:246-256 | freeing what was just allocated gives back the map as it was before the allocation |
| FrameMap.FreeKeepsWellFormed | os161-1.99/kern/arch/mips/vm/dumbvm.c:252-256 | freeing a run from its first slot keeps the run encoding |
| FrameMap.FreeSingleton | os161-1.99/kern/arch/mips/vm/dumbvm.c:252-256 | freeing a one-frame run clears that slot and no other |
| FrameMap.FrameAt | os161-1.99/kern/arch/mips/vm/dumbvm.c:147-148 | the frame of a slot lies above the map's own page, a whole number of pages past physmap_begin |
| FrameMap.SlotAt | os161-1.99/kern/arch/mips/vm/dumbvm.c:248-249 | for an address a whole number of pages past physmap_begin, the slot computed is the one whose frame is that address |
| FrameMap.FrameAtSlotAt | os161-1.99/kern/arch/mips/vm/dumbvm.c:246-249 | the slot `free_kpages` computes from a frame address is the slot whose frame it is, and the other way round; frames fit in 32 bits |
| FrameMap.PhysMap.FrameAddr | os161-1.99/kern/arch/mips/vm/dumbvm.c:147-148 | slot i's frame address is a frame address whose slot is i, between the map's page and physmap_end |
| FrameMap.PhysMap.LayoutFits | os161-1.99/kern/arch/mips/vm/dumbvm.c:92-94 | every frame address counted from the RAM bounds is below 2^32 |
| FrameMap.PhysMap.LastFrameLeavesRam | os161-1.99/kern/arch/mips/vm/dumbvm.c:147-148 | the last slot's frame does not end inside RAM, because the map's own page is counted as a frame |
| FrameMap.PhysMap.constructor | os161-1.99/kern/arch/mips/vm/dumbvm.c:53-56 | before bootstrap the counts and bounds are 0 and the map is not ready |
| FrameMap.PhysMap.Bootstrap | os161-1.99/kern/arch/mips/vm/dumbvm.c:92-98 | records the RAM bounds, sets num_of_frames to (end - begin) / PAGE_SIZE, zeroes every slot and sets the ready flag |
| FrameMap.PhysMap.GetPPages | os161-1.99/kern/arch/mips/vm/dumbvm.c:102-177 | not ready: returns the stolen address, map unchanged; ready: with a first-fit run it returns that run's frame address and the map is marked 1..n there and unchanged elsewhere; otherwise, including n = 0, it returns 0 with the map unchanged |
| FrameMap.PhysMap.AllocKPages | os161-1.99/kern/arch/mips/vm/dumbvm.c:208-215 | as GetPPages on the page count taken as unsigned; a count of 0 or below returns 0 without changing the map |
| FrameMap.PhysMap.FreeKPages | os161-1.99/kern/arch/mips/vm/dumbvm.c:246-256 | clears exactly the slots from the run's first slot up to where the walk stops; the run encoding is kept |
| PhysMem.PhysMem.Bzero | os161-1.99/kern/arch/mips/vm/dumbvm.c:566-568 | the frame holds a zero page and no other frame changes |
| PhysMem.PhysMem.Memmove | os161-1.99/kern/arch/mips/vm/dumbvm.c:694-696 | the destination frame holds the source's page and no other frame changes |
| AddrSpace.AlignRegion | os161-1.99/kern/arch/mips/vm/dumbvm.c:528-534 | the aligned base is a page-aligned 32-bit address and the page count is below 2^20 |
| AddrSpace.AlignRegionCovers | os161-1.99/kern/arch/mips/vm/dumbvm.c:528-534 | the base is page-aligned and at most a page below vaddr; when no wrap occurs the aligned region covers [vaddr, vaddr + sz) and ends less than a page past it |
| AddrSpace.TookOwned | os161-1.99/kern/arch/mips/vm/dumbvm.c:576-611 | frames taken one at a time are each a distinct one-frame run |
| AddrSpace.TookOnlyFree | os161-1.99/kern/arch/mips/vm/dumbvm.c:576-611 | taking frames changes only free slots, each to 1 |
| AddrSpace.TakeStep | os161-1.99/kern/arch/mips/vm/dumbvm.c:578-584 | one more one-page first-fit allocation adds a new frame, not taken before, to what was taken |
| AddrSpace.TakenSlots | os161-1.99/kern/arch/mips/vm/dumbvm.c:576-611 | frames taken in turn from free slots are distinct one-frame runs over slots free at the start; the run encoding is kept |
| AddrSpace.ZeroAllZeroes | os161-1.99/kern/arch/mips/vm/dumbvm.c:583 | zeroing the taken frames in turn leaves each of them a zero page and every other page as it was |
| AddrSpace.TakenAll | os161-1.99/kern/arch/mips/vm/dumbvm.c:570-640 | after the preparation steps, slots only went from free to taken, every taken frame is owned and zeroed, and nothing else changed |
| AddrSpace.TakenCount | os161-1.99/kern/arch/mips/vm/dumbvm.c:576-611 | each frame taken from a free slot lowers the number of free slots by one |
| AddrSpace.TakenBound | os161-1.99/kern/arch/mips/vm/dumbvm.c:576-611 | no more frames are taken than were free, and exactly as many when the map ends with no free slot |
| AddrSpace.PrepareOutcome | os161-1.99/kern/arch/mips/vm/dumbvm.c:570-640 | one free frame taken per page, failing only on an exhausted map: slots only went from free to taken, the frames are owned, and the preparation succeeds if and only if at least as many frames as pages were free |
| AddrSpace.FreeStep | os161-1.99/kern/arch/mips/vm/dumbvm.c:470-473 | freeing the next owned frame clears its slot alone, and the remaining frames are still one-frame runs |
| AddrSpace.FreeFrames | os161-1.99/kern/arch/mips/vm/dumbvm.c:469-473 | after the loop every slot of the freed frames is 0 and all other slots are as at the start of `as_destroy` |
| AddrSpace.AddrSpace.constructor | os161-1.99/kern/arch/mips/vm/dumbvm.c:432-461 | an empty space: bases and counts 0, no frame arrays, not loaded |
| AddrSpace.AddrSpace.DefineRegion | os161-1.99/kern/arch/mips/vm/dumbvm.c:523-564 | region1 gets the aligned region if its base is 0, else region2 if its base is 0; otherwise EUNIMP and nothing changes |
| AddrSpace.AddrSpace.PrepareLoad | os161-1.99/kern/arch/mips/vm/dumbvm.c:570-640 | on both outcomes the map is marked and memory zeroed at exactly the frames taken, each free when taken, and nothing else changed; it succeeds if and only if at least npages1 + npages2 + 12 frames were free at entry; on success the frames taken are those of region1, region2 and the fresh stack array, each its own one-frame run; ENOMEM leaves no slot free, with fewer frames taken than pages needed, all kept |
| AddrSpace.AddrSpace.PrepareRegions | os161-1.99/kern/arch/mips/vm/dumbvm.c:576-596 | the two region loops: on success one frame per page of region1 then region2, npages1 + npages2 in all; ENOMEM leaves no slot free, with fewer frames taken than those pages |
| AddrSpace.AddrSpace.PrepareStack | os161-1.99/kern/arch/mips/vm/dumbvm.c:598-611 | a fresh 12-entry array is filled with 12 frames taken and zeroed in turn; ENOMEM leaves no slot free, with fewer than 12 more frames taken |
| AddrSpace.FillFrames | os161-1.99/kern/arch/mips/vm/dumbvm.c:576-585 | each entry gets a frame taken by a one-page allocation from a free slot and zeroed; ENOMEM leaves no slot free, with fewer frames taken than entries, keeping what was taken |
| AddrSpace.AsZeroRegion | os161-1.99/kern/arch/mips/vm/dumbvm.c:566-568 | the one frame holds a zero page and no other frame changes |
| AddrSpace.AddrSpace.CompleteLoad | os161-1.99/kern/arch/mips/vm/dumbvm.c:642-650 | returns 0 and changes nothing, so `loaded` is never set |
| AddrSpace.AddrSpace.DefineStack | os161-1.99/kern/arch/mips/vm/dumbvm.c:652-657 | the initial stack pointer is USERSTACK |
| AddrSpace.Copied | os161-1.99/kern/arch/mips/vm/dumbvm.c:692-712 | copying pages in turn never drops a frame's contents |
| AddrSpace.CopiedAppend | os161-1.99/kern/arch/mips/vm/dumbvm.c:692-712 | the three copy loops in turn copy the same as one loop over all frames |
| AddrSpace.CopiedPages | os161-1.99/kern/arch/mips/vm/dumbvm.c:692-712 | with distinct destinations that are not sources, each destination ends with its source's original page and every other page is unchanged |
| AddrSpace.OwnedAfterTook | os161-1.99/kern/arch/mips/vm/dumbvm.c:683 | taking free frames for the new space leaves the old space's frames its own |
| AddrSpace.TakenNotOwned | os161-1.99/kern/arch/mips/vm/dumbvm.c:683 | frames taken from free slots are none of the frames the old space owns |
| AddrSpace.CopyFacts | os161-1.99/kern/arch/mips/vm/dumbvm.c:683-712 | the new frames were free and are not old frames; after zeroing and copying, each new frame holds its old page and all else is unchanged |
| AddrSpace.AddrSpace.CopyKeepsOwner | os161-1.99/kern/arch/mips/vm/dumbvm.c:683 | the old space still owns its frames after the new space's frames are taken |
| AddrSpace.AddrSpace.NewLike | os161-1.99/kern/arch/mips/vm/dumbvm.c:662-674 | a fresh space with the old bases and counts and fresh frame arrays |
| AddrSpace.CopyFrames | os161-1.99/kern/arch/mips/vm/dumbvm.c:692-698 | one copy loop: memory is the result of `memmove` of each source frame onto its destination in turn |
| AddrSpace.CopyRegions | os161-1.99/kern/arch/mips/vm/dumbvm.c:692-712 | the three copy loops: memory is the result of copying region1, region2 and the stack in turn |
| AddrSpace.AddrSpace.CopyPagesFrom | os161-1.99/kern/arch/mips/vm/dumbvm.c:692-712 | copying into this space's frames from the other's, with both spaces' frames and ownership unchanged |
| AddrSpace.AddrSpace.CopyInto | os161-1.99/kern/arch/mips/vm/dumbvm.c:688-712 | after preparation the new frames are fresh and each holds the page of the matching old frame; all other pages are unchanged |
| AddrSpace.AddrSpace.PrepareCopyOf | os161-1.99/kern/arch/mips/vm/dumbvm.c:682-712 | succeeds if and only if enough frames for the copy were free at entry, ENOMEM leaving no slot free; on success the new space owns fresh frames holding copies of the old pages |
| AddrSpace.AddrSpace.Copy | os161-1.99/kern/arch/mips/vm/dumbvm.c:659-733 | returns 0 or ENOMEM, and 0 if and only if at least npages1 + npages2 + 12 frames were free at entry; ENOMEM with no new space and no slot left free; on success a fresh, not loaded space with the same bases and counts, owning frames that were free, each holding a copy of the old space's matching page, with every other page unchanged; the old space keeps its frames |
| AddrSpace.AddrSpace.Destroy | os161-1.99/kern/arch/mips/vm/dumbvm.c:463-495 | every frame the space held has its slot cleared, every other slot is unchanged, and the three arrays are dropped |
| Tlb.TlbHiInvalid | os161-1.99/kern/arch/mips/vm/dumbvm.c:512-514 | the high word that invalidates a slot is a page-aligned address in the kernel segment, between 0x80000000 and 0x8003ffff |
| Tlb.TlbHiInvalidDistinct | os161-1.99/kern/arch/mips/vm/dumbvm.c:512-514 | the invalidating high words are above the user space and differ from slot to slot |
| Tlb.EntryLo | os161-1.99/kern/arch/mips/vm/dumbvm.c:398-404 | the low word keeps the frame bits of the physical address, has VALID set, and has DIRTY set exactly when the page is to be writable |
| Tlb.EntryLoFields | os161-1.99/kern/arch/mips/vm/dumbvm.c:398-404 | for a page-aligned frame the installed low word decodes back to that frame, is VALID, and has DIRTY exactly when the page is to be writable |
| Tlb.Entry | os161-1.99/kern/arch/mips/vm/dumbvm.c:397-407 | the entry installed for a fault has the fault page as its high word, is valid, carries the frame bits of the physical address and is writable exactly when asked |
| Tlb.FirstInvalid | os161-1.99/kern/arch/mips/vm/dumbvm.c:393-397 | the lowest slot at or after j with VALID clear; None exactly when every such slot is valid |
| Tlb.Translate | os161-1.99/kern/arch/mips/vm/dumbvm.c:348-371 | a translated physical address is a 32-bit value, and only an address at or above region1's base is code |
| Tlb.TranslateWindows | os161-1.99/kern/arch/mips/vm/dumbvm.c:348-371 | without wrap-around an address translates if and only if it is in region1, region2 or the stack window; it is code if and only if it is in region1; its physical address is the window's first frame plus its offset |
| Tlb.TranslateAligned | os161-1.99/kern/arch/mips/vm/dumbvm.c:387-388 | with aligned bases and first frames, the physical address found is page-aligned |
| Tlb.TranslateUsesFirstFrame | os161-1.99/kern/arch/mips/vm/dumbvm.c:357-360 | a region1 page translates to the first frame plus its offset, which is the page's own frame if and only if that frame sits at that offset |
| Tlb.Tlb.Read | os161-1.99/kern/arch/mips/vm/dumbvm.c:394 | returns the two words of slot i |
| Tlb.Tlb.Write | os161-1.99/kern/arch/mips/vm/dumbvm.c:407 | slot i holds the new entry and no other slot changes |
| Tlb.Tlb.Random | os161-1.99/kern/arch/mips/vm/dumbvm.c:422 | some slot holds the new entry and no other slot changes |
| Tlb.Refill | os161-1.99/kern/arch/mips/vm/dumbvm.c:393-424 | exactly one slot changes: the lowest invalid one if there is one, otherwise some slot; it holds the page, the frame, VALID, and DIRTY unless read-only |
| Tlb.VmFault | os161-1.99/kern/arch/mips/vm/dumbvm.c:277-430 | EROFS, EINVAL, or EFAULT (no process, no space, no window), each with the TLB untouched; otherwise 0 and one slot written as by Refill, write-protected exactly when loaded and in region1 |
| Tlb.Activate | os161-1.99/kern/arch/mips/vm/dumbvm.c:497-517 | with no address space nothing changes; otherwise every slot i holds TLBHI_INVALID(i) and TLBLO_INVALID |
| Tlb.ActivatedTlbFillsSlotZero | os161-1.99/kern/arch/mips/vm/dumbvm.c:512-514 | after invalidation no slot is valid, so the next refill uses slot 0 |

## Left out

- Spinlocks and `splhigh`/`splx`: every operation is sequential.
- `ram_getsize` is replaced by the bounds passed to `Bootstrap`. The
  pre-bootstrap `ram_stealmem` result is the parameter `stolen` of
  `GetPPages` and `AllocKPages`.
- `PADDR_TO_KVADDR` and `KVADDR_TO_PADDR` are the identity. Kernel and
  physical addresses are the same `Paddr` values.
- `kmalloc` always succeeds, so `as_create`'s NULL return and the NULL
  checks after `kmalloc` are not modelled. `kfree` is not modelled.
- `curproc` and `curproc_getas` are the parameters `hasProc` and `space` of
  `VmFault`, and `space` of `Activate`.
- The tlbshootdown panics, `as_deactivate`, DEBUG/kprintf output, the
  non-`OPT_A3` branches and the commented-out CoreMap code are not modelled.
- The frame map's slots are unbounded integers, not C `int`s. Run lengths
  never come near the overflow bound.
- FrameMap.PhysMap.GetPPages: the read one slot past the end of the map
  (line 153) is taken to yield 0.
- FrameMap.PhysMap.FreeKPages: the same read (line 254) is taken to yield
  0. The precondition asks for the first slot of a run, which is what
  `as_destroy` hands in for a fully prepared space. Freeing any other
  address is a caller error that the source does not detect.
- FrameMap.PhysMap.Bootstrap requires the map, one 4-byte `int` per frame,
  to fit in the first page of RAM. Above 1024 frames the source's map runs
  into the frames it hands out, and the model does not capture that
  overlap.
- AddrSpace.AddrSpace.Destroy requires a fully prepared space, because the
  source frees every array entry and all 12 stack entries unconditionally.
- AddrSpace.AddrSpace.Copy does not call `as_destroy` on the half-prepared
  new space when preparation fails (line 684). That call would free array
  entries that were never filled. The model keeps the frames taken, which
  the ENOMEM postcondition allows.
- AddrSpace.AddrSpace.Copy: the 12-entry stack array allocated at line 674
  is replaced by the one `as_prepare_load` allocates. The leak of the first
  array is not modelled.
- AddrSpace.AddrSpace.PrepareLoad states its result as the map marked,
  frame by frame, at the frames taken (a ghost out-parameter), and memory
  zeroed at them. `TakenAll` gives the meaning of that statement.
- AddrSpace.AddrSpace.DefineRegion: the permission flags are accepted and
  ignored, as in the source.
- PhysMem.PhysMem.Memmove requires the source frame to have recorded
  contents. The model only records pages it has written or was given.
- Tlb.VmFault turns the assertions at lines 324-332 and 388 into a
  precondition. A caller that breaks them is not modelled.
- Tlb.VmFault: the slot it writes is a ghost out-parameter, because
  `tlb_random`'s choice is not visible to the caller.
- Tlb.TlbHiInvalidDistinct takes the slot index as a 32-bit word.

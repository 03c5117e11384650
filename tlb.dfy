/** The software-refilled MIPS TLB as dumbvm drives it: the fault handler
    that installs one translation per fault and the context switch hook
    that invalidates every slot. */
module Tlb {
  import opened VmTypes
  import opened AddrSpace

  /** Bits of the low word of a TLB entry. */
  const TLBLO_VALID: bv32 := 0x200
  const TLBLO_DIRTY: bv32 := 0x400

  /** The low word of an invalid entry. */
  const TLBLO_INVALID: bv32 := 0

  /** The page-number part of a 32-bit address. */
  const PAGE_FRAME: bv32 := 0xffff_f000

  /** Lowest address of the 12-page user stack window. */
  const STACKBASE: int := USERSTACK - DUMBVM_STACKPAGES * PAGE_SIZE

  /** One TLB slot: the high word holds the virtual page, the low word the
      physical frame and the flag bits. */
  datatype TlbEntry = TlbEntry(ehi: bv32, elo: bv32)

  /** The entry's VALID bit is set. */
  predicate IsValid(e: TlbEntry)
  {
    e.elo & TLBLO_VALID != 0
  }

  /** The high word written into slot `i` when it is invalidated: page
      `0x80000 + i`, a distinct page of the kernel's unmapped segment for
      every slot. */
  function TlbHiInvalid(i: bv32): (ehi: bv32)
    requires i < 64
    ensures 0x8000_0000 <= ehi < 0x8004_0000 && ehi & !PAGE_FRAME == 0
  {
    (0x80000 + i) << 12
  }

  /** Distinct slots are invalidated with distinct high words, all above
      the user address space, so no invalidated entry matches a user
      address and no two of them match the same address. */
  lemma TlbHiInvalidDistinct(i: bv32, j: bv32)
    requires i < 64 && j < 64
    ensures TlbHiInvalid(i) >= 0x8000_0000
    ensures TlbHiInvalid(i) == TlbHiInvalid(j) <==> i == j
  {
  }

  /** The low word `vm_fault` installs for the frame `paddr`: VALID and DIRTY
      set, then DIRTY cleared again when the page is to be write-protected. */
  function EntryLo(paddr: bv32, writable: bool): (elo: bv32)
    ensures elo & PAGE_FRAME == paddr & PAGE_FRAME
    ensures elo & TLBLO_VALID != 0
    ensures elo & TLBLO_DIRTY != 0 <==> writable
  {
    var elo := paddr | TLBLO_DIRTY | TLBLO_VALID;
    if writable then elo else elo & !TLBLO_DIRTY
  }

  /** For a page-aligned frame the installed low word decodes back to that
      frame, is valid, and is writable exactly when asked for. */
  lemma EntryLoFields(paddr: bv32, writable: bool)
    requires paddr & PAGE_FRAME == paddr
    ensures EntryLo(paddr, writable) & PAGE_FRAME == paddr
    ensures IsValid(TlbEntry(0, EntryLo(paddr, writable)))
    ensures (EntryLo(paddr, writable) & TLBLO_DIRTY != 0) <==> writable
  {
  }

  /** The entry `vm_fault` installs for page `fa` and frame `paddr`. */
  function Entry(fa: int, paddr: int, writable: bool): (e: TlbEntry)
    requires 0 <= fa < WORD && 0 <= paddr < WORD
    ensures e.ehi == fa as bv32 && IsValid(e)
    ensures e.elo & PAGE_FRAME == (paddr as bv32) & PAGE_FRAME
    ensures e.elo & TLBLO_DIRTY != 0 <==> writable
  {
    TlbEntry(fa as bv32, EntryLo(paddr as bv32, writable))
  }

  /** The lowest slot at or after `j` whose VALID bit is clear. */
  function FirstInvalid(s: seq<TlbEntry>, j: nat): (r: Option<nat>)
    decreases |s| - j
    ensures r.Some? ==> j <= r.value < |s| && !IsValid(s[r.value])
    ensures r.Some? ==> forall k :: j <= k < r.value ==> IsValid(s[k])
    ensures r.None? ==> forall k :: j <= k < |s| ==> IsValid(s[k])
  {
    if j >= |s| then None
    else if !IsValid(s[j]) then Some(j)
    else FirstInvalid(s, j + 1)
  }

  // ---------------------------------------------------------------------
  // The window tests of `vm_fault`
  // ---------------------------------------------------------------------

  /** What the fault handler reads from an address space: each region's base,
      page count and first frame, and the stack's first frame. */
  datatype Regions = Regions(vbase1: int, npages1: int, frame1: int,
                             vbase2: int, npages2: int, frame2: int,
                             stackFrame: int)

  /** A translation: the physical address, and whether the page is in the
      first region (the text segment). */
  datatype Translation = Translation(paddr: int, isCode: bool)

  /** The region tests of `vm_fault`, in 32-bit arithmetic: region1, then
      region2, then the stack window; the physical address is the window's
      first frame plus the offset of the page within the window. */
  function Translate(r: Regions, fa: int): (t: Option<Translation>)
    ensures t.Some? ==> 0 <= t.value.paddr < WORD
    ensures t.Some? && t.value.isCode ==> r.vbase1 <= fa
  {
    var vtop1 := Wrap32(r.vbase1 + r.npages1 * PAGE_SIZE);
    var vtop2 := Wrap32(r.vbase2 + r.npages2 * PAGE_SIZE);
    if r.vbase1 <= fa < vtop1 then Some(Translation(Wrap32(fa - r.vbase1 + r.frame1), true))
    else if r.vbase2 <= fa < vtop2 then Some(Translation(Wrap32(fa - r.vbase2 + r.frame2), false))
    else if STACKBASE <= fa < USERSTACK then Some(Translation(Wrap32(fa - STACKBASE + r.stackFrame), false))
    else None
  }

  /** Whether and where an address translates. When the windows do not wrap
      around the top of the 32-bit space, an address translates exactly when
      it lies in one of them; it is code exactly when it lies in region1; and
      its offset from its window's first frame is its offset in the window. */
  lemma TranslateWindows(r: Regions, fa: int)
    requires 0 <= r.vbase1 && 0 <= r.npages1 && r.vbase1 + r.npages1 * PAGE_SIZE < WORD
    requires 0 <= r.vbase2 && 0 <= r.npages2 && r.vbase2 + r.npages2 * PAGE_SIZE < WORD
    requires 0 <= r.frame1 < WORD && 0 <= r.frame2 < WORD && 0 <= r.stackFrame < WORD
    ensures var in1 := r.vbase1 <= fa < r.vbase1 + r.npages1 * PAGE_SIZE;
            var in2 := r.vbase2 <= fa < r.vbase2 + r.npages2 * PAGE_SIZE;
            var inS := STACKBASE <= fa < USERSTACK;
            && (Translate(r, fa).Some? <==> in1 || in2 || inS)
            && (Translate(r, fa).Some? ==> (Translate(r, fa).value.isCode <==> in1))
            && (in1 ==> Translate(r, fa).value.paddr == Wrap32(r.frame1 + (fa - r.vbase1)))
            && (!in1 && in2 ==> Translate(r, fa).value.paddr == Wrap32(r.frame2 + (fa - r.vbase2)))
            && (!in1 && !in2 && inS ==> Translate(r, fa).value.paddr == Wrap32(r.stackFrame + (fa - STACKBASE)))
  {
    assert Wrap32(r.vbase1 + r.npages1 * PAGE_SIZE) == r.vbase1 + r.npages1 * PAGE_SIZE;
    assert Wrap32(r.vbase2 + r.npages2 * PAGE_SIZE) == r.vbase2 + r.npages2 * PAGE_SIZE;
  }

  /** The page-alignment assertion on the physical address holds whenever
      the fault address, the region bases and the first frames are all
      page-aligned. */
  lemma TranslateAligned(r: Regions, fa: int)
    requires fa % PAGE_SIZE == 0 && r.vbase1 % PAGE_SIZE == 0 && r.vbase2 % PAGE_SIZE == 0
    requires r.frame1 % PAGE_SIZE == 0 && r.frame2 % PAGE_SIZE == 0 && r.stackFrame % PAGE_SIZE == 0
    ensures Translate(r, fa).Some? ==> Translate(r, fa).value.paddr % PAGE_SIZE == 0
  {
    var vtop1 := Wrap32(r.vbase1 + r.npages1 * PAGE_SIZE);
    var vtop2 := Wrap32(r.vbase2 + r.npages2 * PAGE_SIZE);
    if r.vbase1 <= fa < vtop1 {
      OffsetAligned(fa, r.vbase1, r.frame1);
    } else if r.vbase2 <= fa < vtop2 {
      OffsetAligned(fa, r.vbase2, r.frame2);
    } else {
      OffsetAligned(fa, STACKBASE, r.stackFrame);
    }
  }

  /** A page-aligned offset added to a page-aligned frame, reduced to 32
      bits, is page-aligned. */
  lemma OffsetAligned(fa: int, base: int, frame: int)
    requires fa % PAGE_SIZE == 0 && base % PAGE_SIZE == 0 && frame % PAGE_SIZE == 0
    ensures Wrap32(fa - base + frame) % PAGE_SIZE == 0
  {
    var x := fa - base + frame;
    assert x == (fa / PAGE_SIZE - base / PAGE_SIZE + frame / PAGE_SIZE) * PAGE_SIZE;
    WrapKeepsAlignment(x);
  }

  /** Reduction modulo 2^32 keeps page alignment, since 2^32 is a multiple of
      the page size. */
  lemma WrapKeepsAlignment(x: int)
    requires x % PAGE_SIZE == 0
    ensures Wrap32(x) % PAGE_SIZE == 0
  {
    var q := x / WORD;
    var a := x / PAGE_SIZE;
    assert x == a * PAGE_SIZE;
    assert Wrap32(x) == x - q * WORD;
    assert q * WORD == (q * 0x10_0000) * PAGE_SIZE;
    assert Wrap32(x) == (a - q * 0x10_0000) * PAGE_SIZE;
  }

  /** A page of region1 is translated to region1's first frame plus the
      page's offset, not to the frame allocated for that page: the result is
      the page's own frame exactly when that frame sits at that offset from
      the first one. Frames are allocated one at a time, so they need not be
      consecutive. */
  lemma TranslateUsesFirstFrame(r: Regions, frames: seq<int>, fa: int)
    requires 0 <= r.vbase1 && r.vbase1 + r.npages1 * PAGE_SIZE < WORD
    requires r.vbase1 % PAGE_SIZE == 0 && fa % PAGE_SIZE == 0
    requires r.vbase1 <= fa < r.vbase1 + r.npages1 * PAGE_SIZE
    requires 0 <= r.frame1 && r.frame1 + r.npages1 * PAGE_SIZE < WORD
    requires |frames| == r.npages1
    ensures Translate(r, fa) == Some(Translation(r.frame1 + (fa - r.vbase1), true))
    ensures var k := (fa - r.vbase1) / PAGE_SIZE;
            0 <= k < |frames| &&
            (Translate(r, fa).value.paddr == frames[k] <==> frames[k] == r.frame1 + k * PAGE_SIZE)
  {
    var k := (fa - r.vbase1) / PAGE_SIZE;
    assert fa - r.vbase1 == k * PAGE_SIZE;
    assert Wrap32(r.vbase1 + r.npages1 * PAGE_SIZE) == r.vbase1 + r.npages1 * PAGE_SIZE;
    assert 0 <= fa - r.vbase1 + r.frame1 < WORD;
  }

  // ---------------------------------------------------------------------
  // The hardware and the handler
  // ---------------------------------------------------------------------

  /** The TLB: `NUM_TLB` slots read and written by index, plus the hardware's
      write to a slot of its own choosing. */
  class Tlb {
    const slots: array<TlbEntry>

    ghost predicate Valid()
      reads this
    {
      slots.Length == NUM_TLB
    }

    /** The TLB at power-on, every slot invalid. */
    constructor ()
      ensures Valid() && fresh(slots)
      ensures forall i :: 0 <= i < NUM_TLB ==> !IsValid(slots[i])
    {
      slots := new TlbEntry[NUM_TLB](_ => TlbEntry(0, TLBLO_INVALID));
    }

    /** `tlb_read`. */
    method Read(i: int) returns (ehi: bv32, elo: bv32)
      requires Valid() && 0 <= i < NUM_TLB
      ensures TlbEntry(ehi, elo) == slots[i]
    {
      ehi, elo := slots[i].ehi, slots[i].elo;
    }

    /** `tlb_write`. */
    method Write(ehi: bv32, elo: bv32, i: int)
      requires Valid() && 0 <= i < NUM_TLB
      modifies slots
      ensures slots[..] == old(slots[..])[i := TlbEntry(ehi, elo)]
    {
      slots[i] := TlbEntry(ehi, elo);
    }

    /** `tlb_random`: the hardware writes a slot it picks itself. */
    method Random(ehi: bv32, elo: bv32) returns (victim: int)
      requires Valid()
      modifies slots
      ensures 0 <= victim < NUM_TLB
      ensures slots[..] == old(slots[..])[victim := TlbEntry(ehi, elo)]
    {
      victim :| 0 <= victim < NUM_TLB;
      slots[victim] := TlbEntry(ehi, elo);
    }
  }

  /** What the handler reads from a fully set-up address space. */
  function RegionsOf(space: AddrSpace): Regions
    reads space, space.pbase1, space.pbase2, space.stackpbase
    requires space.Valid() && space.pbase1 != null && space.npages1 != 0
    requires space.pbase2 != null && space.npages2 != 0 && space.stackpbase != null
  {
    Regions(space.vbase1, space.npages1, space.pbase1[0] as int,
            space.vbase2, space.npages2, space.pbase2[0] as int,
            space.stackpbase[0] as int)
  }

  /** The assertions `vm_fault` makes about the current address space before
      it looks the address up: both regions and the stack are set up, the
      region bases are page-aligned, and so is the physical address found. */
  ghost predicate FaultReady(space: AddrSpace, fa: int)
    reads space, space.pbase1, space.pbase2, space.stackpbase
  {
    && space.Valid()
    && space.vbase1 != 0 && space.pbase1 != null && space.npages1 != 0
    && space.vbase2 != 0 && space.pbase2 != null && space.npages2 != 0
    && space.stackpbase != null
    && space.vbase1 % PAGE_SIZE == 0 && space.vbase2 % PAGE_SIZE == 0
    && (Translate(RegionsOf(space), fa).Some? ==> Translate(RegionsOf(space), fa).value.paddr % PAGE_SIZE == 0)
  }

  /** The refill step of `vm_fault`: the entry mapping page `fa` to frame
      `paddr` goes into the lowest slot whose VALID bit is clear or, when
      every slot is valid, into a slot the hardware picks. DIRTY, the
      hardware's write-enable bit, is cleared when `readOnly`. */
  method Refill(tlb: Tlb, fa: int, paddr: int, readOnly: bool) returns (ghost slot: int)
    requires tlb.Valid() && 0 <= fa < WORD && 0 <= paddr < WORD
    modifies tlb.slots
    ensures 0 <= slot < NUM_TLB
    ensures FirstInvalid(old(tlb.slots[..]), 0).Some? ==> slot == FirstInvalid(old(tlb.slots[..]), 0).value
    ensures tlb.slots[..] == old(tlb.slots[..])[slot := Entry(fa, paddr, !readOnly)]
  {
    var ehi: bv32;
    var elo: bv32;
    var i := 0;
    while i < NUM_TLB
      invariant 0 <= i <= NUM_TLB
      invariant tlb.slots[..] == old(tlb.slots[..])
      invariant FirstInvalid(old(tlb.slots[..]), 0) == FirstInvalid(old(tlb.slots[..]), i)
    {
      ehi, elo := tlb.Read(i);
      if elo & TLBLO_VALID != 0 {
        i := i + 1;
        continue;
      }
      ehi := fa as bv32;
      elo := paddr as bv32 | TLBLO_DIRTY | TLBLO_VALID;
      if readOnly {
        elo := elo & !TLBLO_DIRTY;
      }
      tlb.Write(ehi, elo, i);
      return i;
    }

    elo := paddr as bv32 | TLBLO_DIRTY | TLBLO_VALID;
    ehi := fa as bv32;
    if readOnly {
      elo := elo & !TLBLO_DIRTY;
    }
    slot := tlb.Random(ehi, elo);
  }

  /** `vm_fault`. The fault address is first rounded down to its page. A
      read-only fault is refused with EROFS, an unknown kind with EINVAL, and
      a fault with no current process or address space with EFAULT; so is an
      address outside every window. Otherwise the translation is installed
      by `Refill`, write-protected for region1 once the space is marked
      loaded. `hasProc` and `space` stand for `curproc` and its address
      space. */
  method VmFault(faultType: int, faultAddress: int, hasProc: bool, space: AddrSpace?, tlb: Tlb)
    returns (st: Status, ghost slot: int)
    requires 0 <= faultAddress < WORD && tlb.Valid()
    requires (faultType == VM_FAULT_READ || faultType == VM_FAULT_WRITE) && hasProc && space != null
             ==> FaultReady(space, PageFrame(faultAddress))
    modifies tlb.slots
    ensures faultType == VM_FAULT_READONLY ==> st == Err(EROFS) && unchanged(tlb.slots)
    ensures faultType !in {VM_FAULT_READ, VM_FAULT_WRITE, VM_FAULT_READONLY} ==>
      st == Err(EINVAL) && unchanged(tlb.slots)
    ensures (faultType == VM_FAULT_READ || faultType == VM_FAULT_WRITE) && (!hasProc || space == null) ==>
      st == Err(EFAULT) && unchanged(tlb.slots)
    ensures ((faultType == VM_FAULT_READ || faultType == VM_FAULT_WRITE) && hasProc && space != null &&
             Translate(RegionsOf(space), PageFrame(faultAddress)).None?) ==> st == Err(EFAULT) && unchanged(tlb.slots)
    ensures ((faultType == VM_FAULT_READ || faultType == VM_FAULT_WRITE) && hasProc && space != null &&
             Translate(RegionsOf(space), PageFrame(faultAddress)).Some?) ==>
      var t := Translate(RegionsOf(space), PageFrame(faultAddress)).value;
      && st == Ok && 0 <= slot < NUM_TLB && 0 <= t.paddr < WORD
      && (FirstInvalid(old(tlb.slots[..]), 0).Some? ==> slot == FirstInvalid(old(tlb.slots[..]), 0).value)
      && tlb.slots[..] == old(tlb.slots[..])[slot := Entry(PageFrame(faultAddress), t.paddr, !(space.loaded && t.isCode))]
  {
    slot := 0;
    var fa := PageFrame(faultAddress);
    if faultType == VM_FAULT_READONLY {
      return Err(EROFS), slot;
    } else if faultType != VM_FAULT_READ && faultType != VM_FAULT_WRITE {
      return Err(EINVAL), slot;
    }
    if !hasProc || space == null {
      return Err(EFAULT), slot;
    }

    var r := Regions(space.vbase1, space.npages1, space.pbase1[0] as int,
                     space.vbase2, space.npages2, space.pbase2[0] as int,
                     space.stackpbase[0] as int);
    match Translate(r, fa)
    case None =>
      return Err(EFAULT), slot;
    case Some(t) =>
      slot := Refill(tlb, fa, t.paddr, space.loaded && t.isCode);
      st := Ok;
  }

  /** `as_activate` for the current address space `space`: with no address
      space nothing happens; otherwise every slot is invalidated. */
  method Activate(space: AddrSpace?, tlb: Tlb)
    requires tlb.Valid()
    modifies tlb.slots
    ensures space == null ==> unchanged(tlb.slots)
    ensures space != null ==>
      forall i :: 0 <= i < NUM_TLB ==> tlb.slots[i] == TlbEntry(TlbHiInvalid(i as bv32), TLBLO_INVALID)
  {
    if space == null {
      return;
    }
    var i := 0;
    while i < NUM_TLB
      invariant 0 <= i <= NUM_TLB
      invariant forall k :: 0 <= k < i ==> tlb.slots[k] == TlbEntry(TlbHiInvalid(k as bv32), TLBLO_INVALID)
    {
      tlb.Write(TlbHiInvalid(i as bv32), TLBLO_INVALID, i);
      i := i + 1;
    }
  }

  /** After `as_activate` no slot is valid, so the next fault is installed
      in slot 0. */
  lemma ActivatedTlbFillsSlotZero(s: seq<TlbEntry>)
    requires |s| == NUM_TLB
    requires forall i :: 0 <= i < NUM_TLB ==> s[i] == TlbEntry(TlbHiInvalid(i as bv32), TLBLO_INVALID)
    ensures forall i :: 0 <= i < NUM_TLB ==> !IsValid(s[i])
    ensures FirstInvalid(s, 0) == Some(0)
  {
  }
}

/** The dumbvm address space: two static regions and a fixed 12-page stack,
    each backed by an array holding one physical frame per page, and the
    routines that create, populate, copy and destroy it. */
module AddrSpace {
  import opened VmTypes
  import opened FrameMap
  import opened PhysMem

  /** No frame address occurs twice. */
  ghost predicate NoDup(s: seq<Paddr>)
  {
    forall p, q :: 0 <= p < q < |s| ==> s[p] != s[q]
  }

  /** The frames an array holds; a NULL array holds none. */
  ghost function FramesOf(a: array?<Paddr>): seq<Paddr>
    reads a
  {
    if a == null then [] else a[..]
  }

  /** The alignment done by `as_define_region` in 32-bit `size_t`
      arithmetic: the base is rounded down to a page and the length, grown by
      the base's offset, is rounded up; the result is (base, page count). */
  function AlignRegion(vaddr: int, sz: int): (r: (int, int))
    requires 0 <= vaddr < WORD && 0 <= sz < WORD
    ensures 0 <= r.0 < WORD && r.0 % PAGE_SIZE == 0
    ensures 0 <= r.1 < WORD / PAGE_SIZE
  {
    var grown := Wrap32(sz + vaddr % PAGE_SIZE);
    var base := PageFrame(vaddr);
    var len := PageFrame(Wrap32(grown + PAGE_SIZE - 1));
    (base, len / PAGE_SIZE)
  }

  /** When the request does not reach the top of the 32-bit space, the
      aligned region is the smallest page-aligned one covering
      `[vaddr, vaddr + sz)`. */
  lemma AlignRegionCovers(vaddr: int, sz: int)
    requires 0 <= vaddr < WORD && 0 <= sz < WORD
    ensures AlignRegion(vaddr, sz).0 % PAGE_SIZE == 0
    ensures 0 <= AlignRegion(vaddr, sz).0 <= vaddr < AlignRegion(vaddr, sz).0 + PAGE_SIZE
    ensures AlignRegion(vaddr, sz).1 >= 0
    ensures vaddr + sz + PAGE_SIZE <= WORD ==>
      var (base, n) := AlignRegion(vaddr, sz);
      vaddr + sz <= base + n * PAGE_SIZE < vaddr + sz + PAGE_SIZE
  {
    var grown := Wrap32(sz + vaddr % PAGE_SIZE);
    var len := PageFrame(Wrap32(grown + PAGE_SIZE - 1));
    assert len % PAGE_SIZE == 0;
    assert (len / PAGE_SIZE) * PAGE_SIZE == len;
  }

  /** Frames in `taken` were free in `m0` and are now one-frame runs of `m`;
      every other slot of `m` is as in `m0`. The map has `n` slots for RAM
      starting at `b`. */
  ghost predicate SlotsTook(b: int, n: int, m0: seq<int>, m: seq<int>, taken: seq<Paddr>)
  {
    && Fits(b, n) && |m0| == |m| == n && NoDup(taken)
    && (forall a :: a in taken ==>
          IsFrameAt(b, n, a as int) && m0[SlotAt(b, a as int)] == 0 && SingletonRun(m, SlotAt(b, a as int)))
    && (forall j {:trigger FrameAt(b, j)} :: 0 <= j < n ==>
          m[j] == if FrameAt(b, j) as Paddr in taken then 1 else m0[j])
  }

  /** Each frame of `frames` is the frame of its own one-frame run in `m`,
      and none occurs twice. */
  ghost predicate Owned(b: int, n: int, m: seq<int>, frames: seq<Paddr>)
  {
    && NoDup(frames)
    && forall a :: a in frames ==> IsFrameAt(b, n, a as int) && SingletonRun(m, SlotAt(b, a as int))
  }

  /** Frames taken one by one are owned. */
  lemma TookOwned(b: int, n: int, m0: seq<int>, m: seq<int>, taken: seq<Paddr>)
    requires SlotsTook(b, n, m0, m, taken)
    ensures Owned(b, n, m, taken)
  {
  }

  /** Slots only ever went from free to a one-frame run. */
  predicate OnlyTook(m0: seq<int>, m: seq<int>)
  {
    |m0| == |m| && forall j :: 0 <= j < |m| ==> m[j] == m0[j] || (m0[j] == 0 && m[j] == 1)
  }

  /** Taking frames changes no slot but free ones. */
  lemma TookOnlyFree(b: int, n: int, m0: seq<int>, m: seq<int>, taken: seq<Paddr>)
    requires SlotsTook(b, n, m0, m, taken)
    ensures OnlyTook(m0, m)
  {
    forall j | 0 <= j < n
      ensures m[j] == m0[j] || (m0[j] == 0 && m[j] == 1)
    {
      var a := FrameAt(b, j);
      FrameAtSlotAt(b, n, j, a);
    }
  }

  /** Every frame in `taken` holds zeros and every other page of `mem0` is
      unchanged in `mem`. */
  ghost predicate PagesZeroed(mem0: map<Paddr, Page>, mem: map<Paddr, Page>, taken: seq<Paddr>)
  {
    && (forall a :: a in taken ==> a in mem && mem[a] == ZeroPage())
    && (forall a :: a in mem0 && a !in taken ==> a in mem && mem[a] == mem0[a])
  }

  /** One more single-frame allocation by first fit extends what was taken. */
  lemma TakeStep(b: int, n: int, m0: seq<int>, m: seq<int>, taken: seq<Paddr>, i: nat)
    requires SlotsTook(b, n, m0, m, taken) && WellFormed(m) && FreeRun(m, i, 1)
    ensures FrameAt(b, i) < WORD
    ensures SlotsTook(b, n, m0, Mark(m, i, 1), taken + [FrameAt(b, i) as Paddr])
    ensures FrameAt(b, i) as Paddr !in taken
  {
    FrameAtSlotAt(b, n, i, 0);
    var a := FrameAt(b, i) as Paddr;
    var m' := Mark(m, i, 1);
    var taken' := taken + [a];
    assert m[i] == 0;
    if i + 1 < |m| {
      assert Continues(m, i + 1);
    }
    forall c | c in taken'
      ensures IsFrameAt(b, n, c as int) && m0[SlotAt(b, c as int)] == 0 && SingletonRun(m', SlotAt(b, c as int))
    {
      if c != a {
        var s := SlotAt(b, c as int);
        FrameAtSlotAt(b, n, i, c as int);
        assert s != i;
        assert SingletonRun(m, s);
      }
    }
  }

  /** The map after one-frame runs are laid down, in order, at the slots of
      the frames in `taken`. */
  function MarkAll(m0: seq<int>, b: int, taken: seq<Paddr>): (m: seq<int>)
    ensures |m| == |m0|
  {
    if taken == [] then m0
    else Mark(MarkAll(m0, b, taken[..|taken| - 1]), SlotAt(b, taken[|taken| - 1] as int), 1)
  }

  /** Memory after the frames in `taken` are zeroed, in order. */
  function ZeroAll(mem0: map<Paddr, Page>, taken: seq<Paddr>): map<Paddr, Page>
  {
    if taken == [] then mem0 else ZeroAll(mem0, taken[..|taken| - 1])[taken[|taken| - 1] := ZeroPage()]
  }

  /** Each frame of `taken` is a frame address whose slot was free in the map
      as it stood when that frame was taken. */
  ghost predicate TakenFree(b: int, n: int, m0: seq<int>, taken: seq<Paddr>)
  {
    taken == [] ||
    (var last := taken[|taken| - 1] as int;
     && TakenFree(b, n, m0, taken[..|taken| - 1])
     && IsFrameAt(b, n, last)
     && FreeRun(MarkAll(m0, b, taken[..|taken| - 1]), SlotAt(b, last), 1))
  }

  /** Taking frames one at a time, each from a free slot, leaves every one of
      them a distinct one-frame run over a slot that was free at the start,
      and keeps the run encoding. */
  lemma {:induction false} TakenSlots(b: int, n: int, m0: seq<int>, taken: seq<Paddr>)
    requires Fits(b, n) && |m0| == n && WellFormed(m0) && TakenFree(b, n, m0, taken)
    ensures SlotsTook(b, n, m0, MarkAll(m0, b, taken), taken)
    ensures WellFormed(MarkAll(m0, b, taken))
  {
    if taken != [] {
      var prefix, last := taken[..|taken| - 1], taken[|taken| - 1];
      TakenSlots(b, n, m0, prefix);
      var i := SlotAt(b, last as int);
      FrameAtSlotAt(b, n, 0, last as int);
      TakeStep(b, n, m0, MarkAll(m0, b, prefix), prefix, i);
      MarkKeepsWellFormed(MarkAll(m0, b, prefix), i, 1);
      assert prefix + [last] == taken;
    }
  }

  /** Zeroing the frames of `taken` in order zeroes each of them and leaves
      every other page as it was. */
  lemma {:induction false} ZeroAllZeroes(mem0: map<Paddr, Page>, taken: seq<Paddr>)
    ensures PagesZeroed(mem0, ZeroAll(mem0, taken), taken)
  {
    if taken != [] {
      var prefix := taken[..|taken| - 1];
      ZeroAllZeroes(mem0, prefix);
      assert forall a :: a in taken <==> a in prefix || a == taken[|taken| - 1];
    }
  }

  /** What `as_prepare_load` leaves behind, from the frames it took in order:
      the slots only went from free to taken, every frame taken is owned and
      zeroed, and nothing else changed. */
  lemma TakenAll(b: int, n: int, m0: seq<int>, mem0: map<Paddr, Page>, taken: seq<Paddr>)
    requires Fits(b, n) && |m0| == n && WellFormed(m0) && TakenFree(b, n, m0, taken)
    ensures SlotsTook(b, n, m0, MarkAll(m0, b, taken), taken)
    ensures OnlyTook(m0, MarkAll(m0, b, taken))
    ensures Owned(b, n, MarkAll(m0, b, taken), taken)
    ensures PagesZeroed(mem0, ZeroAll(mem0, taken), taken)
  {
    TakenSlots(b, n, m0, taken);
    TookOnlyFree(b, n, m0, MarkAll(m0, b, taken), taken);
    TookOwned(b, n, m0, MarkAll(m0, b, taken), taken);
    ZeroAllZeroes(mem0, taken);
  }

  /** Each frame taken from a free slot lowers the count of free slots by
      one. */
  lemma {:induction false} TakenCount(b: int, n: int, m0: seq<int>, taken: seq<Paddr>)
    requires TakenFree(b, n, m0, taken)
    ensures FreeCount(MarkAll(m0, b, taken)) + |taken| == FreeCount(m0)
  {
    if taken != [] {
      var prefix := taken[..|taken| - 1];
      TakenCount(b, n, m0, prefix);
      var m := MarkAll(m0, b, prefix);
      var s := SlotAt(b, taken[|taken| - 1] as int);
      assert FreeRun(m, s, 1) && m[s] == 0;
      assert Mark(m, s, 1) == m[s := 1];
      TakeOneFree(m, s, 1);
    }
  }

  /** Frames taken one at a time from free slots are at most as many as
      were free; when the map ends exhausted, they are exactly as many. */
  lemma TakenBound(b: int, n: int, m0: seq<int>, taken: seq<Paddr>)
    requires TakenFree(b, n, m0, taken)
    ensures |taken| <= FreeCount(m0)
    ensures Exhausted(MarkAll(m0, b, taken)) ==> |taken| == FreeCount(m0)
  {
    TakenCount(b, n, m0, taken);
    FreeCountZero(MarkAll(m0, b, taken));
  }

  /** What `as_prepare_load` leaves, from the frames it took: slots only
      went from free to taken, each frame taken is owned, and since it takes
      one free frame per page and fails only on an exhausted map, it
      succeeds exactly when enough frames were free. */
  lemma PrepareOutcome(b: int, n: int, m0: seq<int>, mem0: map<Paddr, Page>, taken: seq<Paddr>,
                       needed: int, ok: bool)
    requires Fits(b, n) && |m0| == n && WellFormed(m0) && TakenFree(b, n, m0, taken)
    requires ok ==> |taken| == needed
    requires !ok ==> Exhausted(MarkAll(m0, b, taken)) && |taken| < needed
    ensures OnlyTook(m0, MarkAll(m0, b, taken))
    ensures Owned(b, n, MarkAll(m0, b, taken), taken)
    ensures ok <==> needed <= FreeCount(m0)
  {
    TakenAll(b, n, m0, mem0, taken);
    TakenBound(b, n, m0, taken);
  }

  /** `free_kpages` of the frames `all[..k]` in the middle of `as_destroy`. */
  ghost predicate Freed(b: int, n: int, m0: seq<int>, m: seq<int>, all: seq<Paddr>, k: int)
  {
    && Fits(b, n) && |m0| == |m| == n && 0 <= k <= |all| && NoDup(all)
    && (forall a :: a in all ==> IsFrameAt(b, n, a as int))
    && (forall p :: k <= p < |all| ==> SingletonRun(m, SlotAt(b, all[p] as int)))
    && (forall j {:trigger FrameAt(b, j)} :: 0 <= j < n ==>
          m[j] == if FrameAt(b, j) as Paddr in all[..k] then 0 else m0[j])
  }

  /** Freeing the next owned frame, a one-frame run, clears its slot only. */
  lemma FreeStep(b: int, n: int, m0: seq<int>, m: seq<int>, all: seq<Paddr>, k: nat)
    requires Freed(b, n, m0, m, all, k) && WellFormed(m) && k < |all|
    ensures IsFrameAt(b, n, all[k] as int) && SingletonRun(m, SlotAt(b, all[k] as int))
    ensures Clear(m, SlotAt(b, all[k] as int), RunEnd(m, SlotAt(b, all[k] as int)))
            == m[SlotAt(b, all[k] as int) := 0]
    ensures Freed(b, n, m0, m[SlotAt(b, all[k] as int) := 0], all, k + 1)
  {
    var s := SlotAt(b, all[k] as int);
    assert all[k] in all;
    FreeSingleton(m, s);
    var m' := m[s := 0];
    FrameAtSlotAt(b, n, s, all[k] as int);
    forall p | k + 1 <= p < |all|
      ensures SingletonRun(m', SlotAt(b, all[p] as int))
    {
      assert all[p] in all;
      FrameAtSlotAt(b, n, s, all[p] as int);
      assert all[p] != all[k];
      assert SingletonRun(m, SlotAt(b, all[p] as int));
    }
    assert all[..k + 1] == all[..k] + [all[k]];
    forall j | 0 <= j < n
      ensures m'[j] == if FrameAt(b, j) as Paddr in all[..k + 1] then 0 else m0[j]
    {
      FrameAtSlotAt(b, n, j, all[k] as int);
    }
  }

  /** Memory after `memmove` of frame `srcs[k]` onto frame `dsts[k]` for
      each k in turn; a source frame with no recorded contents is skipped. */
  function Copied(mem: map<Paddr, Page>, dsts: seq<Paddr>, srcs: seq<Paddr>): (r: map<Paddr, Page>)
    requires |dsts| == |srcs|
    ensures mem.Keys <= r.Keys
    decreases |dsts|
  {
    if |dsts| == 0 then mem
    else
      var m := if srcs[0] in mem then mem[dsts[0] := mem[srcs[0]]] else mem;
      Copied(m, dsts[1..], srcs[1..])
  }

  /** Copying two lists of frames in one pass is copying the first, then
      the second. */
  lemma {:induction false} CopiedAppend(mem: map<Paddr, Page>, d1: seq<Paddr>, s1: seq<Paddr>, d2: seq<Paddr>, s2: seq<Paddr>)
    requires |d1| == |s1| && |d2| == |s2|
    ensures Copied(mem, d1 + d2, s1 + s2) == Copied(Copied(mem, d1, s1), d2, s2)
    decreases |d1|
  {
    if |d1| == 0 {
      assert d1 + d2 == d2 && s1 + s2 == s2;
    } else {
      var m := if s1[0] in mem then mem[d1[0] := mem[s1[0]]] else mem;
      assert (d1 + d2)[1..] == d1[1..] + d2 && (s1 + s2)[1..] == s1[1..] + s2;
      CopiedAppend(m, d1[1..], s1[1..], d2, s2);
    }
  }

  /** When no destination frame is a source frame and none occurs twice,
      every destination ends up holding what its source held at the start,
      and every other frame is as it was. */
  lemma {:induction false} CopiedPages(mem: map<Paddr, Page>, dsts: seq<Paddr>, srcs: seq<Paddr>)
    requires |dsts| == |srcs| && NoDup(dsts)
    requires forall k :: 0 <= k < |srcs| ==> srcs[k] in mem && srcs[k] !in dsts
    ensures forall k :: 0 <= k < |dsts| ==>
      dsts[k] in Copied(mem, dsts, srcs) && Copied(mem, dsts, srcs)[dsts[k]] == mem[srcs[k]]
    ensures forall a :: a in mem && a !in dsts ==> Copied(mem, dsts, srcs)[a] == mem[a]
    decreases |dsts|
  {
    if |dsts| > 0 {
      var m := mem[dsts[0] := mem[srcs[0]]];
      var d, s := dsts[1..], srcs[1..];
      forall k | 0 <= k < |s|
        ensures s[k] in m && s[k] !in d
      {
        assert srcs[k + 1] !in dsts;
      }
      CopiedPages(m, d, s);
      var r := Copied(mem, dsts, srcs);
      assert r == Copied(m, d, s);
      forall k | 0 <= k < |dsts|
        ensures r[dsts[k]] == mem[srcs[k]]
      {
        if k > 0 {
          assert dsts[k] == d[k - 1] && srcs[k] == s[k - 1];
          assert srcs[k] != dsts[0];
        }
      }
    }
  }

  /** Taking free slots leaves every owned one-frame run as it was. */
  lemma OwnedAfterTook(b: int, n: int, m0: seq<int>, m: seq<int>, frames: seq<Paddr>)
    requires Owned(b, n, m0, frames) && OnlyTook(m0, m)
    ensures Owned(b, n, m, frames)
  {
    forall a | a in frames
      ensures SingletonRun(m, SlotAt(b, a as int))
    {
      var s := SlotAt(b, a as int);
      assert SingletonRun(m0, s);
      if s + 1 < |m| {
        assert m[s + 1] == m0[s + 1] || m[s + 1] == 1;
      }
    }
  }

  /** Frames taken from free slots are none of the frames already owned. */
  lemma TakenNotOwned(b: int, n: int, m0: seq<int>, owned: seq<Paddr>, taken: seq<Paddr>)
    requires Fits(b, n) && |m0| == n && WellFormed(m0)
    requires Owned(b, n, m0, owned) && TakenFree(b, n, m0, taken)
    ensures forall a :: a in taken ==> a !in owned
  {
    TakenSlots(b, n, m0, taken);
  }

  /** `struct addrspace`. */
  class AddrSpace {
    var vbase1: int
    var pbase1: array?<Paddr>
    var npages1: int
    var vbase2: int
    var pbase2: array?<Paddr>
    var npages2: int
    var stackpbase: array?<Paddr>
    var loaded: bool

    /** Each frame array has one entry per page of its region, and the three
        arrays are distinct objects. */
    ghost predicate Valid()
      reads this
    {
      && 0 <= vbase1 < WORD && 0 <= vbase2 < WORD
      && (if pbase1 == null then npages1 == 0 else pbase1.Length == npages1)
      && (if pbase2 == null then npages2 == 0 else pbase2.Length == npages2)
      && (stackpbase != null ==> stackpbase.Length == DUMBVM_STACKPAGES)
      && (pbase1 != null ==> pbase1 != pbase2 && pbase1 != stackpbase)
      && (pbase2 != null ==> pbase2 != stackpbase)
    }

    /** Every frame the space holds: region1's, region2's, then the stack's. */
    ghost function Frames(): seq<Paddr>
      reads this, pbase1, pbase2, stackpbase
    {
      FramesOf(pbase1) + FramesOf(pbase2) + FramesOf(stackpbase)
    }

    /** Fully prepared: the stack array exists and every frame the space
        holds is its own one-frame run in the allocator's map. */
    ghost predicate Owns(alloc: PhysMap)
      reads this, pbase1, pbase2, stackpbase, alloc, alloc.slots
    {
      && Valid() && stackpbase != null && alloc.Valid()
      && Owned(alloc.begin, alloc.numFrames, alloc.slots[..], Frames())
    }

    /** `as_create`: an empty space (the descriptor allocation is taken to
        succeed). */
    constructor ()
      ensures Valid() && !loaded
      ensures vbase1 == 0 && pbase1 == null && npages1 == 0
      ensures vbase2 == 0 && pbase2 == null && npages2 == 0
      ensures stackpbase == null
    {
      vbase1 := 0;
      pbase1 := null;
      npages1 := 0;
      vbase2 := 0;
      pbase2 := null;
      npages2 := 0;
      stackpbase := null;
      loaded := false;
    }

    /** `as_define_region`: the aligned region goes into region1 if its base
        is 0, else into region2 if its base is 0, else the call fails. The
        permission flags are ignored. */
    method DefineRegion(vaddr: int, sz: int, readable: int, writeable: int, executable: int)
      returns (st: Status)
      requires Valid() && 0 <= vaddr < WORD && 0 <= sz < WORD
      modifies this
      ensures Valid() && loaded == old(loaded) && stackpbase == old(stackpbase)
      ensures old(vbase1) == 0 ==>
        && st == Ok && (vbase1, npages1) == AlignRegion(vaddr, sz) && fresh(pbase1)
        && vbase2 == old(vbase2) && npages2 == old(npages2) && pbase2 == old(pbase2)
      ensures old(vbase1) != 0 && old(vbase2) == 0 ==>
        && st == Ok && (vbase2, npages2) == AlignRegion(vaddr, sz) && fresh(pbase2)
        && vbase1 == old(vbase1) && npages1 == old(npages1) && pbase1 == old(pbase1)
      ensures old(vbase1) != 0 && old(vbase2) != 0 ==> st == Err(EUNIMP) && unchanged(this)
    {
      var vaddr', sz' := vaddr, sz;
      sz' := Wrap32(sz' + vaddr' % PAGE_SIZE);
      vaddr' := PageFrame(vaddr');
      sz' := PageFrame(Wrap32(sz' + PAGE_SIZE - 1));
      var npages := sz' / PAGE_SIZE;

      if vbase1 == 0 {
        vbase1 := vaddr';
        npages1 := npages;
        pbase1 := new Paddr[npages1];
        return Ok;
      }
      if vbase2 == 0 {
        vbase2 := vaddr';
        npages2 := npages;
        pbase2 := new Paddr[npages2];
        return Ok;
      }
      return Err(EUNIMP);
    }

    /** `as_prepare_load`: one frame per page of region1, region2 and the
        stack, each taken with a one-page first-fit allocation and zeroed. On
        ENOMEM it returns at once and keeps the frames already taken. */
    method PrepareLoad(alloc: PhysMap, ram: PhysMem) returns (st: Status, ghost taken: seq<Paddr>)
      requires Valid() && alloc.Valid() && alloc.ready
      modifies this, pbase1, pbase2, alloc.slots, ram
      ensures Valid() && alloc.Valid() && loaded == old(loaded)
      ensures vbase1 == old(vbase1) && npages1 == old(npages1) && pbase1 == old(pbase1)
      ensures vbase2 == old(vbase2) && npages2 == old(npages2) && pbase2 == old(pbase2)
      ensures st == Ok || st == Err(ENOMEM)
      ensures OnlyTook(old(alloc.slots[..]), alloc.slots[..])
      ensures alloc.slots[..] == MarkAll(old(alloc.slots[..]), alloc.begin, taken)
      ensures ram.pages == ZeroAll(old(ram.pages), taken)
      ensures TakenFree(alloc.begin, alloc.numFrames, old(alloc.slots[..]), taken)
      ensures st == Ok ==> fresh(stackpbase) && taken == Frames() && Owns(alloc)
      ensures st == Err(ENOMEM) ==>
        Exhausted(alloc.slots[..]) && |taken| < npages1 + npages2 + DUMBVM_STACKPAGES
      ensures st == Ok <==> npages1 + npages2 + DUMBVM_STACKPAGES <= FreeCount(old(alloc.slots[..]))
    {
      ghost var m0 := alloc.slots[..];
      ghost var mem0 := ram.pages;
      ghost var b, n := alloc.begin, alloc.numFrames;
      alloc.LayoutFits();
      st, taken := PrepareRegions(alloc, ram);
      if st != Ok {
        PrepareOutcome(b, n, m0, mem0, taken, npages1 + npages2 + DUMBVM_STACKPAGES, false);
        return;
      }
      ghost var f12 := taken;
      st, taken := PrepareStack(alloc, ram, m0, mem0, taken);
      if st == Ok {
        assert taken == f12 + stackpbase[..];
        assert FramesOf(stackpbase) == stackpbase[..];
      }
      PrepareOutcome(b, n, m0, mem0, taken, npages1 + npages2 + DUMBVM_STACKPAGES, st == Ok);
    }

    /** The first two loops of `as_prepare_load`: a frame for every page of
        region1, then of region2, each taken by a one-page allocation and
        zeroed; the first failure returns ENOMEM. */
    method PrepareRegions(alloc: PhysMap, ram: PhysMem) returns (st: Status, ghost taken: seq<Paddr>)
      requires Valid() && alloc.Valid() && alloc.ready
      modifies pbase1, pbase2, alloc.slots, ram
      ensures alloc.Valid()
      ensures alloc.slots[..] == MarkAll(old(alloc.slots[..]), alloc.begin, taken)
      ensures ram.pages == ZeroAll(old(ram.pages), taken)
      ensures TakenFree(alloc.begin, alloc.numFrames, old(alloc.slots[..]), taken)
      ensures st == Ok || st == Err(ENOMEM)
      ensures st == Ok ==> taken == FramesOf(pbase1) + FramesOf(pbase2) && |taken| == npages1 + npages2
      ensures st == Err(ENOMEM) ==> Exhausted(alloc.slots[..]) && |taken| < npages1 + npages2
    {
      ghost var m0 := alloc.slots[..];
      ghost var mem0 := ram.pages;
      st, taken := FillFrames(pbase1, npages1, alloc, ram, m0, mem0, []);
      if st != Ok {
        return;
      }
      ghost var f1 := FramesOf(pbase1);
      assert taken == f1;
      st, taken := FillFrames(pbase2, npages2, alloc, ram, m0, mem0, taken);
    }

    /** The stack part of `as_prepare_load`: a fresh array of 12 entries
        (the `kmalloc` is taken to succeed), then one zeroed frame per entry. */
    method PrepareStack(alloc: PhysMap, ram: PhysMem,
                        ghost m0: seq<int>, ghost mem0: map<Paddr, Page>, ghost taken0: seq<Paddr>)
      returns (st: Status, ghost taken: seq<Paddr>)
      requires Valid() && alloc.Valid() && alloc.ready && |m0| == alloc.numFrames
      requires alloc.slots[..] == MarkAll(m0, alloc.begin, taken0) && ram.pages == ZeroAll(mem0, taken0)
      requires TakenFree(alloc.begin, alloc.numFrames, m0, taken0)
      modifies this, alloc.slots, ram
      ensures Valid() && fresh(stackpbase) && loaded == old(loaded)
      ensures vbase1 == old(vbase1) && npages1 == old(npages1) && pbase1 == old(pbase1)
      ensures vbase2 == old(vbase2) && npages2 == old(npages2) && pbase2 == old(pbase2)
      ensures alloc.Valid()
      ensures alloc.slots[..] == MarkAll(m0, alloc.begin, taken) && ram.pages == ZeroAll(mem0, taken)
      ensures TakenFree(alloc.begin, alloc.numFrames, m0, taken)
      ensures st == Ok || st == Err(ENOMEM)
      ensures st == Ok ==> taken == taken0 + stackpbase[..] && |taken| == |taken0| + DUMBVM_STACKPAGES
      ensures st == Err(ENOMEM) ==> Exhausted(alloc.slots[..]) && |taken| < |taken0| + DUMBVM_STACKPAGES
    {
      stackpbase := new Paddr[DUMBVM_STACKPAGES];
      st, taken := FillFrames(stackpbase, DUMBVM_STACKPAGES, alloc, ram, m0, mem0, taken0);
    }

    /** `as_complete_load`: does nothing, so `loaded` keeps its value. */
    method CompleteLoad() returns (st: Status)
      ensures st == Ok
    {
      return Ok;
    }

    /** `as_define_stack`: the initial stack pointer is the top of user space. */
    method DefineStack() returns (st: Status, stackptr: int)
      requires stackpbase != null
      ensures st == Ok && stackptr == USERSTACK
    {
      stackptr := USERSTACK;
      st := Ok;
    }

    /** `as_copy`: a new space with this space's regions, whose frames,
        taken and zeroed by `as_prepare_load`, then receive a copy of this
        space's pages one by one. The descriptor and the three frame arrays
        are taken to be allocated. */
    method Copy(alloc: PhysMap, ram: PhysMem) returns (st: Status, ret: AddrSpace?)
      requires Owns(alloc) && alloc.ready
      requires forall a :: a in Frames() ==> a in ram.pages
      modifies alloc.slots, ram
      ensures st == Ok || st == Err(ENOMEM)
      ensures Owns(alloc) && OnlyTook(old(alloc.slots[..]), alloc.slots[..])
      ensures st == Ok ==>
        && ret != null && fresh(ret) && !ret.loaded && ret.Owns(alloc)
        && ret.vbase1 == vbase1 && ret.npages1 == npages1
        && ret.vbase2 == vbase2 && ret.npages2 == npages2
        && FreshFrames(alloc.begin, old(alloc.slots[..]), ret.Frames(), Frames())
        && PagesCopied(old(ram.pages), ram.pages, ret.Frames(), Frames())
      ensures st == Err(ENOMEM) ==> ret == null && Exhausted(alloc.slots[..])
      ensures st == Ok <==> npages1 + npages2 + DUMBVM_STACKPAGES <= FreeCount(old(alloc.slots[..]))
    {
      ret := null;
      var space := NewLike();
      st := space.PrepareCopyOf(this, alloc, ram);
      if st == Ok {
        ret := space;
      }
    }

    /** The rest of `as_copy` on the new space: `as_prepare_load`, then the
        pages of `src` are copied into the fresh frames. On ENOMEM the new
        space keeps the frames it took (its `as_destroy` is not modelled). */
    method PrepareCopyOf(src: AddrSpace, alloc: PhysMap, ram: PhysMem) returns (st: Status)
      requires Valid() && src.Owns(alloc) && alloc.ready
      requires npages1 == src.npages1 && npages2 == src.npages2
      requires src != this
      requires pbase1 != null ==> pbase1 != src.pbase1 && pbase1 != src.pbase2 && pbase1 != src.stackpbase
      requires pbase2 != null ==> pbase2 != src.pbase1 && pbase2 != src.pbase2 && pbase2 != src.stackpbase
      requires forall a :: a in src.Frames() ==> a in ram.pages
      modifies this, pbase1, pbase2, alloc.slots, ram
      ensures st == Ok || st == Err(ENOMEM)
      ensures src.Owns(alloc) && OnlyTook(old(alloc.slots[..]), alloc.slots[..])
      ensures Valid() && loaded == old(loaded)
      ensures vbase1 == old(vbase1) && npages1 == old(npages1)
      ensures vbase2 == old(vbase2) && npages2 == old(npages2)
      ensures st == Ok ==>
        && Owns(alloc)
        && FreshFrames(alloc.begin, old(alloc.slots[..]), Frames(), src.Frames())
        && PagesCopied(old(ram.pages), ram.pages, Frames(), src.Frames())
      ensures st == Err(ENOMEM) ==> Exhausted(alloc.slots[..])
      ensures st == Ok <==> npages1 + npages2 + DUMBVM_STACKPAGES <= FreeCount(old(alloc.slots[..]))
    {
      ghost var m0 := alloc.slots[..];
      ghost var mem0 := ram.pages;
      ghost var srcs := src.Frames();
      ghost var taken;
      st, taken := PrepareLoad(alloc, ram);
      assert src.Frames() == srcs;
      if st != Ok {
        src.CopyKeepsOwner(alloc, m0);
        return;
      }
      ghost var dsts := Frames();
      src.CopyInto(this, alloc, ram, m0, mem0, dsts, srcs);
    }

    /** The page-copy part of `as_copy`, once `as_prepare_load` has given
        `space` fresh zeroed frames: this space's pages are copied into them,
        and this space still owns its own frames. */
    method CopyInto(space: AddrSpace, alloc: PhysMap, ram: PhysMem, ghost m0: seq<int>, ghost mem0: map<Paddr, Page>,
                    ghost dsts: seq<Paddr>, ghost srcs: seq<Paddr>)
      requires Valid() && stackpbase != null && space.Owns(alloc)
      requires space.npages1 == npages1 && space.npages2 == npages2
      requires dsts == space.Frames() && srcs == Frames()
      requires |m0| == alloc.numFrames && WellFormed(m0)
      requires Owned(alloc.begin, alloc.numFrames, m0, srcs) && OnlyTook(m0, alloc.slots[..])
      requires forall a :: a in srcs ==> a in mem0
      requires TakenFree(alloc.begin, alloc.numFrames, m0, dsts)
      requires ram.pages == ZeroAll(mem0, dsts)
      modifies ram
      ensures Frames() == srcs && space.Frames() == dsts
      ensures Owns(alloc) && space.Owns(alloc)
      ensures FreshFrames(alloc.begin, m0, dsts, srcs)
      ensures PagesCopied(mem0, ram.pages, dsts, srcs)
    {
      CopyKeepsOwner(alloc, m0);
      ghost var mem1 := ram.pages;
      alloc.LayoutFits();
      assert forall a :: a in srcs ==> a in mem1 by {
        CopyFacts(alloc.begin, alloc.numFrames, m0, mem0, srcs, dsts);
      }
      space.CopyPagesFrom(this, alloc, ram, mem1, dsts, srcs);
      CopyFacts(alloc.begin, alloc.numFrames, m0, mem0, srcs, dsts);
    }

    /** The first part of `as_copy`: `as_create`, then this space's region
        bases and sizes, and fresh frame arrays of matching sizes. */
    method NewLike() returns (space: AddrSpace)
      requires Valid()
      ensures fresh(space) && fresh(space.pbase1) && fresh(space.pbase2) && fresh(space.stackpbase)
      ensures space.Valid() && space.stackpbase != null && !space.loaded
      ensures space.vbase1 == vbase1 && space.npages1 == npages1
      ensures space.vbase2 == vbase2 && space.npages2 == npages2
    {
      space := new AddrSpace();
      space.pbase1 := new Paddr[npages1];
      space.vbase1 := vbase1;
      space.npages1 := npages1;
      space.pbase2 := new Paddr[npages2];
      space.vbase2 := vbase2;
      space.npages2 := npages2;
      space.stackpbase := new Paddr[DUMBVM_STACKPAGES];
    }

    /** The three page-copy loops of `as_copy`, from `src` into this space,
        whose regions have the same sizes. */
    method CopyPagesFrom(src: AddrSpace, alloc: PhysMap, ram: PhysMem, ghost mem1: map<Paddr, Page>,
                         ghost dsts: seq<Paddr>, ghost srcs: seq<Paddr>)
      requires Owns(alloc) && src.Owns(alloc)
      requires npages1 == src.npages1 && npages2 == src.npages2
      requires dsts == Frames() && srcs == src.Frames()
      requires forall a :: a in srcs ==> a in mem1
      requires ram.pages == mem1
      modifies ram
      ensures |dsts| == |srcs| && ram.pages == Copied(mem1, dsts, srcs)
      ensures Frames() == dsts && src.Frames() == srcs
      ensures Owns(alloc) && src.Owns(alloc)
    {
      CopyRegions(pbase1, src.pbase1, npages1, pbase2, src.pbase2, npages2, stackpbase, src.stackpbase, ram);
    }

    /** After frames are taken for another space this one still owns all of
        its own. */
    lemma CopyKeepsOwner(alloc: PhysMap, m0: seq<int>)
      requires Valid() && stackpbase != null && alloc.Valid()
      requires Owned(alloc.begin, alloc.numFrames, m0, Frames()) && OnlyTook(m0, alloc.slots[..])
      ensures Owns(alloc)
    {
      OwnedAfterTook(alloc.begin, alloc.numFrames, m0, alloc.slots[..], Frames());
    }

    /** `as_destroy`: free every frame of region1, region2 and the stack, in
        that order, and drop the three arrays. */
    method Destroy(alloc: PhysMap)
      requires Owns(alloc)
      modifies this, alloc.slots
      ensures alloc.Valid()
      ensures pbase1 == null && pbase2 == null && stackpbase == null
      ensures forall j :: 0 <= j < alloc.numFrames ==>
        alloc.slots[j] == if alloc.FrameAddr(j) in old(Frames()) then 0 else old(alloc.slots[j])
    {
      ghost var m0 := alloc.slots[..];
      ghost var all := Frames();
      alloc.LayoutFits();
      ghost var b, n := alloc.begin, alloc.numFrames;
      ghost var n1, n2 := |FramesOf(pbase1)|, |FramesOf(pbase2)|;
      forall p | 0 <= p < |all|
        ensures SingletonRun(m0, SlotAt(b, all[p] as int))
      {
        assert all[p] in all;
      }
      assert Freed(b, n, m0, alloc.slots[..], all, 0);
      assert FramesOf(pbase1) == all[0..n1];
      assert FramesOf(pbase2) == all[n1..n1 + n2];
      assert FramesOf(stackpbase) == all[n1 + n2..n1 + n2 + DUMBVM_STACKPAGES];
      FreeFrames(pbase1, npages1, alloc, m0, all, 0);
      pbase1 := null;
      FreeFrames(pbase2, npages2, alloc, m0, all, n1);
      pbase2 := null;
      FreeFrames(stackpbase, DUMBVM_STACKPAGES, alloc, m0, all, n1 + n2);
      stackpbase := null;
      assert all[..|all|] == all;
    }
  }

  /** The loop `as_destroy` runs over region1, region2 and the stack in turn:
      `free_kpages` of each of the `npages` frames of `frames`, which are
      `all[k0..k0 + npages]`. */
  method FreeFrames(frames: array?<Paddr>, npages: int, alloc: PhysMap,
                    ghost m0: seq<int>, ghost all: seq<Paddr>, ghost k0: nat)
    requires if frames == null then npages == 0 else frames.Length == npages
    requires alloc.Valid() && Freed(alloc.begin, alloc.numFrames, m0, alloc.slots[..], all, k0)
    requires k0 + npages <= |all| && FramesOf(frames) == all[k0..k0 + npages]
    modifies alloc.slots
    ensures alloc.Valid() && Freed(alloc.begin, alloc.numFrames, m0, alloc.slots[..], all, k0 + npages)
  {
    var ind := 0;
    while ind < npages
      invariant 0 <= ind <= npages && alloc.Valid()
      invariant Freed(alloc.begin, alloc.numFrames, m0, alloc.slots[..], all, k0 + ind)
    {
      assert frames[ind] == all[k0 + ind];
      ghost var m := alloc.slots[..];
      ghost var s := SlotAt(alloc.begin, all[k0 + ind] as int);
      FreeStep(alloc.begin, alloc.numFrames, m0, m, all, k0 + ind);
      alloc.FreeKPages(frames[ind]);
      assert alloc.slots[..] == m[s := 0];
      ind := ind + 1;
    }
  }

  /** Every frame of `dsts` was free in `m0`, so none is a frame of `srcs`. */
  ghost predicate FreshFrames(b: int, m0: seq<int>, dsts: seq<Paddr>, srcs: seq<Paddr>)
  {
    forall a :: a in dsts ==>
      a !in srcs && 0 <= SlotAt(b, a as int) < |m0| && m0[SlotAt(b, a as int)] == 0
  }

  /** Each frame `dsts[k]` of `mem` holds what `srcs[k]` held in `mem0`, and
      every other frame of `mem0` is as it was. */
  ghost predicate PagesCopied(mem0: map<Paddr, Page>, mem: map<Paddr, Page>, dsts: seq<Paddr>, srcs: seq<Paddr>)
  {
    && |dsts| == |srcs|
    && (forall k :: 0 <= k < |dsts| ==> dsts[k] in mem && srcs[k] in mem0 && mem[dsts[k]] == mem0[srcs[k]])
    && (forall a :: a in mem0 && a !in dsts ==> a in mem && mem[a] == mem0[a])
  }

  /** What `as_copy` knows once `as_prepare_load` has filled the new space
      with the free frames `dsts`: none of them is a frame of the old space,
      and copying the old pages over the zeroed ones leaves each new frame
      holding its old page and every other page as it was. */
  lemma CopyFacts(b: int, n: int, m0: seq<int>, mem0: map<Paddr, Page>, srcs: seq<Paddr>, dsts: seq<Paddr>)
    requires Fits(b, n) && |m0| == n && WellFormed(m0)
    requires Owned(b, n, m0, srcs) && TakenFree(b, n, m0, dsts)
    requires |dsts| == |srcs| && forall a :: a in srcs ==> a in mem0
    ensures FreshFrames(b, m0, dsts, srcs)
    ensures forall k :: 0 <= k < |srcs| ==> srcs[k] in ZeroAll(mem0, dsts)
    ensures PagesCopied(mem0, Copied(ZeroAll(mem0, dsts), dsts, srcs), dsts, srcs)
  {
    TakenNotOwned(b, n, m0, srcs, dsts);
    TakenSlots(b, n, m0, dsts);
    ZeroAllZeroes(mem0, dsts);
    var mem1 := ZeroAll(mem0, dsts);
    forall k | 0 <= k < |srcs|
      ensures srcs[k] in mem1 && srcs[k] !in dsts && mem1[srcs[k]] == mem0[srcs[k]]
    {
      assert srcs[k] in srcs;
    }
    CopiedPages(mem1, dsts, srcs);
  }

  /** One of the three page-copy loops of `as_copy`: `memmove` of each of
      the `npages` frames of `src` onto the matching frame of `dst`. */
  method CopyFrames(dst: array?<Paddr>, src: array?<Paddr>, npages: int, ram: PhysMem)
    requires if dst == null then npages == 0 else dst.Length == npages
    requires if src == null then npages == 0 else src.Length == npages
    requires forall k :: 0 <= k < |FramesOf(src)| ==> FramesOf(src)[k] in ram.pages
    modifies ram
    ensures ram.pages == Copied(old(ram.pages), FramesOf(dst), FramesOf(src))
  {
    ghost var mem0 := ram.pages;
    ghost var dsts, srcs := FramesOf(dst), FramesOf(src);
    var ind := 0;
    while ind < npages
      invariant 0 <= ind <= npages
      invariant forall k :: 0 <= k < |srcs| ==> srcs[k] in ram.pages
      invariant Copied(ram.pages, dsts[ind..], srcs[ind..]) == Copied(mem0, dsts, srcs)
    {
      assert dsts[ind..][1..] == dsts[ind + 1..] && srcs[ind..][1..] == srcs[ind + 1..];
      ram.Memmove(dst[ind], src[ind]);
      ind := ind + 1;
    }
  }

  /** The three page-copy loops of `as_copy` in turn: region1, region2,
      then the stack. */
  method CopyRegions(d1: array?<Paddr>, s1: array?<Paddr>, n1: int, d2: array?<Paddr>, s2: array?<Paddr>, n2: int,
                     d3: array<Paddr>, s3: array<Paddr>, ram: PhysMem)
    requires if d1 == null then n1 == 0 else d1.Length == n1
    requires if s1 == null then n1 == 0 else s1.Length == n1
    requires if d2 == null then n2 == 0 else d2.Length == n2
    requires if s2 == null then n2 == 0 else s2.Length == n2
    requires d3.Length == s3.Length == DUMBVM_STACKPAGES
    requires forall a :: a in FramesOf(s1) + FramesOf(s2) + FramesOf(s3) ==> a in ram.pages
    modifies ram
    ensures ram.pages == Copied(old(ram.pages), FramesOf(d1) + FramesOf(d2) + FramesOf(d3),
                                FramesOf(s1) + FramesOf(s2) + FramesOf(s3))
  {
    ghost var mem1 := ram.pages;
    ghost var f1, f2, f3 := FramesOf(d1), FramesOf(d2), FramesOf(d3);
    ghost var g1, g2, g3 := FramesOf(s1), FramesOf(s2), FramesOf(s3);
    CopyFrames(d1, s1, n1, ram);
    CopyFrames(d2, s2, n2, ram);
    CopyFrames(d3, s3, DUMBVM_STACKPAGES, ram);
    CopiedAppend(mem1, f1, g1, f2, g2);
    CopiedAppend(mem1, f1 + f2, g1 + g2, f3, g3);
  }

  /** The loop `as_prepare_load` runs over region1, region2 and the stack in
      turn: for each of the `npages` entries of `frames`, take one frame by a
      one-page `getppages`, record it and zero it; stop with ENOMEM at the
      first failure, keeping what was taken. `taken` is what the call has
      taken so far, over all three loops. */
  method FillFrames(frames: array?<Paddr>, npages: int, alloc: PhysMap, ram: PhysMem,
                    ghost m0: seq<int>, ghost mem0: map<Paddr, Page>, ghost taken0: seq<Paddr>)
    returns (st: Status, ghost taken: seq<Paddr>)
    requires if frames == null then npages == 0 else frames.Length == npages
    requires alloc.Valid() && alloc.ready && |m0| == alloc.numFrames
    requires alloc.slots[..] == MarkAll(m0, alloc.begin, taken0) && ram.pages == ZeroAll(mem0, taken0)
    requires TakenFree(alloc.begin, alloc.numFrames, m0, taken0)
    modifies frames, alloc.slots, ram
    ensures alloc.Valid()
    ensures alloc.slots[..] == MarkAll(m0, alloc.begin, taken) && ram.pages == ZeroAll(mem0, taken)
    ensures TakenFree(alloc.begin, alloc.numFrames, m0, taken)
    ensures st == Ok || st == Err(ENOMEM)
    ensures st == Ok ==> taken == taken0 + FramesOf(frames)
    ensures st == Err(ENOMEM) ==> Exhausted(alloc.slots[..]) && |taken| < |taken0| + npages
  {
    taken := taken0;
    var ind := 0;
    while ind < npages
      invariant 0 <= ind <= npages && alloc.Valid()
      invariant taken == taken0 + if frames == null then [] else frames[..ind]
      invariant |taken| == |taken0| + ind
      invariant alloc.slots[..] == MarkAll(m0, alloc.begin, taken) && ram.pages == ZeroAll(mem0, taken)
      invariant TakenFree(alloc.begin, alloc.numFrames, m0, taken)
    {
      ghost var before := alloc.slots[..];
      var paddr := alloc.GetPPages(1, 0);
      if paddr == 0 {
        SingleFitFailsIffExhausted(before);
        return Err(ENOMEM), taken;
      }
      frames[ind] := paddr;
      AsZeroRegion(ram, frames[ind]);
      assert (taken + [paddr])[..|taken|] == taken;
      taken := taken + [paddr];
      ind := ind + 1;
    }
    if frames != null {
      assert frames[..ind] == frames[..];
    } else {
      assert taken0 + [] == taken0;
    }
    return Ok, taken;
  }

  /** `as_zero_region` for the one page at `paddr`. */
  method AsZeroRegion(ram: PhysMem, paddr: Paddr)
    modifies ram
    ensures ram.pages == old(ram.pages)[paddr := ZeroPage()]
  {
    ram.Bzero(paddr);
  }
}

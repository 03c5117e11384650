/** The physical frame allocator of dumbvm: a map of `int` slots, one per
    frame, where 0 marks a free frame and an allocated run of n frames holds
    1, 2, ..., n. Allocation is a first-fit scan; freeing walks a run from its
    first slot. */
module FrameMap {
  import opened VmTypes

  // ---------------------------------------------------------------------
  // The map as a value
  // ---------------------------------------------------------------------

  /** `n >= 1` slots starting at `j` are inside the map and all free. */
  predicate FreeRun(m: seq<int>, j: int, n: int)
  {
    1 <= n && 0 <= j && j + n <= |m| && forall k :: j <= k < j + n ==> m[k] == 0
  }

  /** Slot `i` is not negative, and when it holds v > 1 it directly follows
      a slot holding v - 1 of the same run. */
  predicate Continues(m: seq<int>, i: int)
    requires 0 <= i < |m|
  {
    m[i] >= 0 && (m[i] > 1 ==> i > 0 && m[i - 1] == m[i] - 1)
  }

  /** The run encoding holds at every slot. */
  ghost predicate WellFormed(m: seq<int>)
  {
    forall i :: 0 <= i < |m| ==> Continues(m, i)
  }

  /** The lowest index at or above `j` where `n` free slots start. */
  function FirstFitFrom(m: seq<int>, n: int, j: nat): (r: Option<nat>)
    decreases |m| - j
    ensures r.Some? ==> j <= r.value && FreeRun(m, r.value, n)
    ensures r.Some? ==> forall k :: j <= k < r.value ==> !FreeRun(m, k, n)
    ensures r.None? ==> forall k :: j <= k ==> !FreeRun(m, k, n)
  {
    if n < 1 || j + n > |m| then None
    else if FreeRun(m, j, n) then Some(j)
    else FirstFitFrom(m, n, j + 1)
  }

  /** No slot of the map is free. */
  predicate Exhausted(m: seq<int>)
  {
    forall j :: 0 <= j < |m| ==> m[j] != 0
  }

  /** The first-fit choice over the whole map. */
  function FirstFit(m: seq<int>, n: int): Option<nat>
  {
    FirstFitFrom(m, n, 0)
  }

  /** The map after slots `i .. i+n-1` are given the run values 1 .. n. */
  function Mark(m: seq<int>, i: int, n: int): (r: seq<int>)
    ensures |r| == |m|
    ensures forall k :: 0 <= k < |m| && r[k] != m[k] ==> i <= k < i + n && r[k] >= 1
  {
    seq(|m|, k requires 0 <= k < |m| => if i <= k < i + n then k - i + 1 else m[k])
  }

  /** Marking one more slot extends a marked run by one. */
  lemma MarkStep(m: seq<int>, i: int, n: int)
    requires 0 <= i && 0 <= n && i + n < |m|
    ensures Mark(m, i, n)[i + n := n + 1] == Mark(m, i, n + 1)
  {
  }

  /** The map after slots `lo .. hi-1` are set free. */
  function Clear(m: seq<int>, lo: int, hi: int): seq<int>
  {
    seq(|m|, k requires 0 <= k < |m| => if lo <= k < hi then 0 else m[k])
  }

  /** Where a walk that frees from slot `s` stops: the first later slot that
      holds 0 or 1, or the end of the map (the word past the map reads as 0). */
  function RunEnd(m: seq<int>, s: nat): (e: nat)
    requires s < |m|
    decreases |m| - s
    ensures s < e <= |m|
    ensures forall k :: s < k < e ==> m[k] != 0 && m[k] != 1
    ensures e == |m| || m[e] == 0 || m[e] == 1
  {
    if s + 1 == |m| || m[s + 1] == 0 || m[s + 1] == 1 then s + 1 else RunEnd(m, s + 1)
  }

  // ---------------------------------------------------------------------
  // Properties of allocation and release
  // ---------------------------------------------------------------------

  /** First fit picks the lowest start of a free run, and only such a start. */
  lemma FirstFitIsLowest(m: seq<int>, n: int, i: nat)
    ensures FirstFit(m, n) == Some(i) <==> FreeRun(m, i, n) && forall k :: 0 <= k < i ==> !FreeRun(m, k, n)
  {
    var r := FirstFit(m, n);
    if FreeRun(m, i, n) && forall k :: 0 <= k < i ==> !FreeRun(m, k, n) {
      assert r.Some?;
      assert !(r.value < i) && !(i < r.value);
    }
  }

  /** A single frame is refused exactly when no slot is free. */
  lemma SingleFitFailsIffExhausted(m: seq<int>)
    ensures FirstFit(m, 1) == None <==> Exhausted(m)
  {
    if FirstFit(m, 1) == None {
      forall j | 0 <= j < |m|
        ensures m[j] != 0
      {
        assert !FreeRun(m, j, 1);
      }
    } else {
      var i := FirstFit(m, 1).value;
      assert FreeRun(m, i, 1) && m[i] == 0;
    }
  }

  /** The number of free slots in the map. */
  function FreeCount(m: seq<int>): (c: nat)
    ensures c <= |m|
  {
    if m == [] then 0 else FreeCount(m[..|m| - 1]) + (if m[|m| - 1] == 0 then 1 else 0)
  }

  /** No free slot is counted exactly when the map is exhausted. */
  lemma {:induction false} FreeCountZero(m: seq<int>)
    ensures FreeCount(m) == 0 <==> Exhausted(m)
  {
    if m != [] {
      var p := m[..|m| - 1];
      FreeCountZero(p);
      assert forall j :: 0 <= j < |p| ==> p[j] == m[j];
    }
  }

  /** Taking one free slot lowers the count of free slots by one. */
  lemma {:induction false} TakeOneFree(m: seq<int>, s: int, v: int)
    requires 0 <= s < |m| && m[s] == 0 && v != 0
    ensures FreeCount(m[s := v]) == FreeCount(m) - 1
  {
    var m' := m[s := v];
    if s == |m| - 1 {
      assert m'[..|m'| - 1] == m[..|m| - 1];
    } else {
      assert m'[..|m'| - 1] == m[..|m| - 1][s := v];
      TakeOneFree(m[..|m| - 1], s, v);
    }
  }

  /** Allocating a free run never overwrites a slot of a live run, and only
      the chosen slots change. */
  lemma MarkOnlyTakesFreeSlots(m: seq<int>, i: int, n: int, k: int)
    requires FreeRun(m, i, n) && 0 <= k < |m|
    ensures Mark(m, i, n)[k] != m[k] ==> i <= k < i + n && m[k] == 0
    ensures i <= k < i + n ==> Mark(m, i, n)[k] != 0
  {
  }

  /** Allocation keeps the run encoding. */
  lemma MarkKeepsWellFormed(m: seq<int>, i: int, n: int)
    requires WellFormed(m) && FreeRun(m, i, n)
    ensures WellFormed(Mark(m, i, n))
  {
    var r := Mark(m, i, n);
    forall k | 0 <= k < |r|
      ensures Continues(r, k)
    {
      assert Continues(m, k);
    }
  }

  /** A run laid down by allocation is exactly what the freeing walk from its
      first slot covers. */
  lemma RunEndAfterMark(m: seq<int>, i: nat, n: int)
    requires WellFormed(m) && FreeRun(m, i, n)
    ensures RunEnd(Mark(m, i, n), i) == i + n
  {
    var r := Mark(m, i, n);
    assert forall k :: i < k < i + n ==> r[k] == k - i + 1;
    if i + n < |m| {
      assert m[i + n - 1] == 0 && Continues(m, i + n);
      assert r[i + n] == m[i + n] <= 1;
    }
  }

  /** Freeing what was just allocated restores the map exactly. */
  lemma AllocFreeRoundTrip(m: seq<int>, i: nat, n: int)
    requires WellFormed(m) && FreeRun(m, i, n)
    ensures Clear(Mark(m, i, n), i, RunEnd(Mark(m, i, n), i)) == m
  {
    RunEndAfterMark(m, i, n);
  }

  /** Freeing a run from its first slot keeps the run encoding. */
  lemma FreeKeepsWellFormed(m: seq<int>, s: nat)
    requires WellFormed(m) && s < |m| && m[s] == 1
    ensures WellFormed(Clear(m, s, RunEnd(m, s)))
  {
    var e := RunEnd(m, s);
    var r := Clear(m, s, e);
    forall k | 0 <= k < |r|
      ensures Continues(r, k)
    {
      assert Continues(m, k);
      if r[k] > 1 {
        assert k != e;
        assert k - 1 != s - 1;
      }
    }
  }

  /** Slot `s` is a run of exactly one frame. */
  ghost predicate SingletonRun(m: seq<int>, s: int)
  {
    0 <= s < |m| && m[s] == 1 && (s + 1 == |m| || m[s + 1] <= 1)
  }

  /** Freeing a one-frame run clears that slot alone. */
  lemma FreeSingleton(m: seq<int>, s: nat)
    requires WellFormed(m) && SingletonRun(m, s)
    ensures RunEnd(m, s) == s + 1
    ensures Clear(m, s, RunEnd(m, s)) == m[s := 0]
  {
    if s + 1 < |m| {
      assert Continues(m, s + 1);
    }
  }

  // ---------------------------------------------------------------------
  // Slots and frame addresses
  // ---------------------------------------------------------------------

  /** With RAM starting at `begin`, `n` frames follow the map's page and all
      of them start below 2^32. */
  predicate Fits(begin: int, n: int)
  {
    0 <= begin && 0 <= n && begin + n * PAGE_SIZE < WORD
  }

  /** The address of slot `i`'s frame. */
  function FrameAt(begin: int, i: int): (a: int)
    ensures 0 <= i ==> begin + PAGE_SIZE <= a && (a - begin) % PAGE_SIZE == 0
  {
    begin + (i + 1) * PAGE_SIZE
  }

  /** The slot `free_kpages` computes for the address `a`. */
  function SlotAt(begin: int, a: int): (s: int)
    ensures (a - begin) % PAGE_SIZE == 0 ==> FrameAt(begin, s) == a
  {
    (a - begin) / PAGE_SIZE - 1
  }

  /** `a` is the frame address of one of the `n` slots. */
  predicate IsFrameAt(begin: int, n: int, a: int)
  {
    begin + PAGE_SIZE <= a && (a - begin) % PAGE_SIZE == 0 && SlotAt(begin, a) < n
  }

  /** Slot and frame address are inverse to each other, so distinct slots
      stand for distinct frames. */
  lemma FrameAtSlotAt(begin: int, n: int, i: int, a: int)
    requires Fits(begin, n) && 0 <= i < n
    ensures IsFrameAt(begin, n, FrameAt(begin, i)) && SlotAt(begin, FrameAt(begin, i)) == i
    ensures FrameAt(begin, i) < WORD
    ensures IsFrameAt(begin, n, a) ==> 0 <= SlotAt(begin, a) && FrameAt(begin, SlotAt(begin, a)) == a
  {
  }

  // ---------------------------------------------------------------------
  // The allocator state
  // ---------------------------------------------------------------------

  /** The file-scope state of the allocator: the RAM bounds reported at boot,
      the number of frames, the ready flag and the frame map, which the kernel
      keeps in the first page of RAM. */
  class PhysMap {
    var numFrames: nat
    var begin: int
    var end: int
    var ready: bool
    var slots: array<int>

    /** The RAM bounds and the frame count agree, and the map (one 4-byte
        `int` per slot) fits in the first page of RAM, so that it overlaps no
        frame it hands out. */
    ghost predicate Layout()
      reads this
    {
      && 0 <= begin <= end < WORD && numFrames == (end - begin) / PAGE_SIZE
      && numFrames * 4 <= PAGE_SIZE
    }

    ghost predicate Valid()
      reads this, slots
    {
      Layout() && slots.Length == numFrames && WellFormed(slots[..])
    }

    /** Slot `i` stands for the frame one page further on than its index,
        because the map itself fills the first page. */
    function FrameAddr(i: int): (a: Paddr)
      reads this
      requires Layout() && 0 <= i < numFrames
      ensures IsFrameAddr(a) && SlotOf(a) == i
      ensures begin + PAGE_SIZE <= a as int <= end
    {
      FrameAt(begin, i) as Paddr
    }

    /** `a` is the address of some slot's frame. */
    ghost predicate IsFrameAddr(a: Paddr)
      reads this
    {
      IsFrameAt(begin, numFrames, a as int)
    }

    /** The slot of a frame address, as `free_kpages` computes it. */
    function SlotOf(a: Paddr): nat
      reads this
      requires IsFrameAddr(a)
    {
      SlotAt(begin, a as int)
    }

    /** The layout fits in the 32-bit physical address space. */
    lemma LayoutFits()
      requires Layout()
      ensures Fits(begin, numFrames)
    {
    }

    /** The frame of the last slot does not end inside RAM: the map's own page
        is counted among the frames, so the last slot lies one page too far. */
    lemma LastFrameLeavesRam()
      requires Layout() && numFrames > 0
      ensures FrameAddr(numFrames - 1) as int + PAGE_SIZE > end
    {
    }

    /** The allocator before `vm_bootstrap`: all statics zero. */
    constructor ()
      ensures Valid() && !ready
      ensures numFrames == 0 && begin == 0 && end == 0
    {
      numFrames := 0;
      begin := 0;
      end := 0;
      ready := false;
      slots := new int[0];
    }

    /** `vm_bootstrap`: take the RAM bounds `lo`, `hi` reported by
        `ram_getsize`, clear one slot per frame and publish the ready flag. */
    method Bootstrap(lo: int, hi: int)
      requires 0 <= lo <= hi < WORD && (hi - lo) / PAGE_SIZE * 4 <= PAGE_SIZE
      modifies this
      ensures Valid() && ready && fresh(slots)
      ensures begin == lo && end == hi && numFrames == (hi - lo) / PAGE_SIZE
      ensures forall i :: 0 <= i < numFrames ==> slots[i] == 0
    {
      begin, end := lo, hi;
      numFrames := end - begin;
      numFrames := numFrames / PAGE_SIZE;
      slots := new int[numFrames];
      for ind := 0 to numFrames
        modifies slots
        invariant forall k :: 0 <= k < ind ==> slots[k] == 0
      {
        slots[ind] := 0;
      }
      ready := true;
    }

    /** `getppages`: before bootstrap, hand back what the boot-time stealer
        `ram_stealmem` produced (`stolen`); afterwards, the first-fit scan. */
    method GetPPages(npages: nat, stolen: Paddr) returns (paddr: Paddr)
      requires Valid()
      modifies slots
      ensures Valid()
      ensures !ready ==> paddr == stolen && slots[..] == old(slots[..])
      ensures ready ==> match FirstFit(old(slots[..]), npages)
        case Some(i) => paddr == FrameAddr(i) && slots[..] == Mark(old(slots[..]), i, npages)
        case None => paddr == 0 && slots[..] == old(slots[..])
    {
      paddr := 0;
      if ready {
        ghost var m0 := slots[..];
        ghost var chosen: nat := 0;
        var found := false;
        var indBegin := 0;
        while indBegin < numFrames
          invariant 0 <= indBegin <= numFrames + 1
          invariant slots[..] == m0 && paddr == 0 && !found
          invariant forall k :: 0 <= k < indBegin ==> !FreeRun(m0, k, npages)
        {
          var ind := indBegin;
          var numOfPages := 0;
          var pos := slots[indBegin];
          while pos == 0 && numOfPages + ind < numFrames
            invariant indBegin == ind + numOfPages <= numFrames
            invariant npages == 0 || numOfPages < npages
            invariant pos == if indBegin < numFrames then m0[indBegin] else 0
            invariant forall k :: ind <= k < indBegin ==> m0[k] == 0
            invariant slots[..] == m0 && paddr == 0 && !found
          {
            if numOfPages + 1 == npages {
              assert FreeRun(m0, ind, npages);
              indBegin := ind;
              var j := 1;
              while j < npages + 1
                invariant 1 <= j <= npages + 1
                invariant indBegin == ind + j - 1
                invariant slots[..] == Mark(m0, ind, j - 1)
              {
                MarkStep(m0, ind, j - 1);
                slots[indBegin] := j;
                j := j + 1;
                indBegin := indBegin + 1;
              }
              paddr := ((ind + 1) * PAGE_SIZE) as Paddr;
              paddr := paddr + begin as Paddr;
              chosen := ind;
              found := true;
              break;
            }
            numOfPages := numOfPages + 1;
            pos := if indBegin + 1 < numFrames then slots[indBegin + 1] else 0;
            indBegin := indBegin + 1;
          }
          if found {
            break;
          }
          assert forall k :: ind <= k <= indBegin ==> !FreeRun(m0, k, npages);
          indBegin := indBegin + 1;
        }
        if found {
          FirstFitIsLowest(m0, npages, chosen);
          MarkKeepsWellFormed(m0, chosen, npages);
        }
      } else {
        paddr := stolen;
      }
    }

    /** `alloc_kpages`: the `int` page count is converted to the unsigned
        argument of `getppages`; a zero physical address is returned as 0, any
        other is returned unchanged (kernel and physical addresses coincide in
        this model). */
    method AllocKPages(npages: int, stolen: Paddr) returns (va: Paddr)
      requires -0x8000_0000 <= npages < 0x8000_0000
      requires Valid()
      modifies slots
      ensures Valid()
      ensures !ready ==> va == stolen && slots[..] == old(slots[..])
      ensures ready ==> match FirstFit(old(slots[..]), Wrap32(npages))
        case Some(i) => va == FrameAddr(i) && slots[..] == Mark(old(slots[..]), i, Wrap32(npages))
        case None => va == 0 && slots[..] == old(slots[..])
      ensures ready && npages <= 0 ==> va == 0 && slots[..] == old(slots[..])
    {
      assert npages <= 0 ==> Wrap32(npages) == 0 || Wrap32(npages) > numFrames;
      var pa := GetPPages(Wrap32(npages), stolen);
      if pa == 0 {
        return 0;
      }
      return pa;
    }

    /** `free_kpages`: from the slot of `addr`, clear slots until the next one
        holds 0 or 1. The caller hands in the first frame of a run. */
    method FreeKPages(addr: Paddr)
      requires Valid() && IsFrameAddr(addr) && slots[SlotOf(addr)] == 1
      modifies slots
      ensures Valid()
      ensures slots[..] == Clear(old(slots[..]), SlotOf(addr), RunEnd(old(slots[..]), SlotOf(addr)))
    {
      ghost var m0 := slots[..];
      var indBegin := addr as int - begin;
      indBegin := indBegin / PAGE_SIZE - 1;
      var ind := indBegin;
      var pos := -1;
      while pos != 1 && pos != 0
        invariant indBegin <= ind <= numFrames
        invariant slots[..] == Clear(m0, indBegin, ind)
        invariant ind == indBegin <==> pos == -1
        invariant ind > indBegin ==> pos == if ind < numFrames then m0[ind] else 0
        invariant forall k :: indBegin < k < ind ==> m0[k] != 0 && m0[k] != 1
        decreases numFrames - ind
      {
        if ind + 1 < numFrames {
          assert Continues(m0, ind + 1);
        }
        slots[ind] := 0;
        pos := if ind + 1 < numFrames then slots[ind + 1] else 0;
        ind := ind + 1;
      }
      assert ind == RunEnd(m0, indBegin);
      FreeKeepsWellFormed(m0, indBegin);
    }
  }
}

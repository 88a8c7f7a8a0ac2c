/** The physical frame table: bootstrap, first-fit single-frame allocation
    (`getppages(1)`, `alloc_kpages(1)`) and release (`free_kpages`).

    The table is an ordered sequence of frames created once by bootstrap.
    Allocation and release only flip a frame's `free` flag and `groupSize`;
    no frame address ever changes.
 */
module Frames {
  import opened Machine
  import opened Wrappers

  /** One physical page frame. `groupSize` is the number of frames allocated
      together starting at this one; 0 when the frame is free. */
  datatype Frame = Frame(paddr: Word, free: bool, groupSize: nat)

  /** `booted` is the `vm_boot` flag: before bootstrap the table does not
      exist and allocation goes to the early-boot stealing allocator. */
  datatype FrameTable = FrameTable(booted: bool, frames: seq<Frame>)

  /** Why an allocation produced no frame of the table: it was served by
      `ram_stealmem` (not part of this model), or the table had no free frame
      (the source panics). */
  datatype Shortfall = StealMem | NoFreeFrame

  datatype Alloc = Allocated(addr: Word, table: FrameTable) | Unavailable(why: Shortfall)

  /** Outcome of `free_kpages`. `Halted` is the group-release loop of the
      source run on a group of two or more frames: its guard
      `index < group_size + index` then stays true, so the loop walks off
      the end of the table and the bounds assertion of `array_get` stops the
      kernel. */
  datatype Release = Released(table: FrameTable) | Halted

  /** A frame taken by a single-frame allocation. */
  function Claimed(a: Word): Frame {
    Frame(a, false, 1)
  }

  /** A free frame as bootstrap creates it and release leaves it. */
  function Vacant(a: Word): Frame {
    Frame(a, true, 0)
  }

  // ---------------------------------------------------------------------
  // Invariants of the table

  predicate Ascending(frames: seq<Frame>) {
    forall i, j :: 0 <= i < j < |frames| ==> frames[i].paddr < frames[j].paddr
  }

  predicate DistinctAddrs(frames: seq<Frame>) {
    forall i, j :: 0 <= i < |frames| && 0 <= j < |frames| && i != j ==> frames[i].paddr != frames[j].paddr
  }

  /** With single-frame allocation only, a frame is either vacant or claimed. */
  predicate GroupConsistent(f: Frame) {
    f == Vacant(f.paddr) || f == Claimed(f.paddr)
  }

  predicate Inv(frames: seq<Frame>) {
    && DistinctAddrs(frames)
    && forall i :: 0 <= i < |frames| ==> GroupConsistent(frames[i])
  }

  /** The two tables have the same frames at the same addresses. */
  predicate SameAddrs(a: seq<Frame>, b: seq<Frame>) {
    |a| == |b| && forall i :: 0 <= i < |a| ==> a[i].paddr == b[i].paddr
  }

  predicate NoneFree(frames: seq<Frame>) {
    forall i :: 0 <= i < |frames| ==> !frames[i].free
  }

  predicate LowestFree(frames: seq<Frame>, k: int) {
    0 <= k < |frames| && frames[k].free && forall j :: 0 <= j < k ==> !frames[j].free
  }

  /** Index of the first frame at address `a`, the frame `free_kpages` acts on. */
  predicate FirstAt(frames: seq<Frame>, a: Word, k: int) {
    0 <= k < |frames| && frames[k].paddr == a && forall j :: 0 <= j < k ==> frames[j].paddr != a
  }

  function FreeCount(frames: seq<Frame>): nat {
    if |frames| == 0 then 0
    else (if frames[0].free then 1 else 0) + FreeCount(frames[1..])
  }

  /** Addresses of the free frames. */
  function FreeAddrs(frames: seq<Frame>): set<Word> {
    set i | 0 <= i < |frames| && frames[i].free :: frames[i].paddr
  }

  /** Every frame whose address is in `s` becomes claimed. */
  function MarkClaimed(frames: seq<Frame>, s: set<Word>): (r: seq<Frame>)
    ensures SameAddrs(frames, r)
  {
    seq(|frames|, i requires 0 <= i < |frames| =>
      if frames[i].paddr in s then Claimed(frames[i].paddr) else frames[i])
  }

  /** Every frame whose address is in `s` becomes vacant. */
  function MarkFree(frames: seq<Frame>, s: set<Word>): (r: seq<Frame>)
    ensures SameAddrs(frames, r)
  {
    seq(|frames|, i requires 0 <= i < |frames| =>
      if frames[i].paddr in s then Vacant(frames[i].paddr) else frames[i])
  }

  // ---------------------------------------------------------------------
  // vm_bootstrap

  /** The frames bootstrap records for the physical range [first, last):
      one per whole page, while `first + PAGE_SIZE <= last`. */
  function BootFrames(first: Word, last: Word): (r: seq<Frame>)
    ensures |r| == if first <= last then (last - first) / PAGE_SIZE else 0
    ensures forall i :: 0 <= i < |r| ==> r[i] == Vacant(r[i].paddr) && r[i].paddr == first + i * PAGE_SIZE
    decreases last - first
  {
    if first + PAGE_SIZE <= last then
      var rest := BootFrames(first + PAGE_SIZE, last);
      assert forall i :: 1 <= i < 1 + |rest| ==> ([Vacant(first)] + rest)[i] == rest[i - 1];
      [Vacant(first)] + rest
    else
      []
  }

  /** `vm_bootstrap`: record the frames of the range and set `vm_boot`. */
  function Bootstrap(first: Word, last: Word): (r: FrameTable)
    ensures r.booted
    ensures |r.frames| == if first <= last then (last - first) / PAGE_SIZE else 0
    ensures forall i :: 0 <= i < |r.frames| ==> r.frames[i] == Vacant(first + i * PAGE_SIZE)
  {
    FrameTable(true, BootFrames(first, last))
  }

  /** Bootstrap yields a well-formed table of ascending, vacant frames inside
      the range, page-aligned when the range start is. */
  lemma BootstrapWellFormed(first: Word, last: Word)
    ensures Bootstrap(first, last).booted
    ensures Inv(Bootstrap(first, last).frames)
    ensures Ascending(Bootstrap(first, last).frames)
    ensures FreeCount(Bootstrap(first, last).frames) == |Bootstrap(first, last).frames|
    ensures forall f :: f in Bootstrap(first, last).frames ==> first <= f.paddr && f.paddr + PAGE_SIZE <= last
    ensures PageAligned(first) ==> forall f :: f in Bootstrap(first, last).frames ==> PageAligned(f.paddr)
  {
    var fs := Bootstrap(first, last).frames;
    forall i | 0 <= i < |fs|
      ensures fs[i].paddr + PAGE_SIZE <= last
      ensures PageAligned(first) ==> PageAligned(fs[i].paddr)
    {
      assert (i + 1) * PAGE_SIZE <= ((last - first) / PAGE_SIZE) * PAGE_SIZE <= last - first;
    }
    AllFreeCount(fs);
  }

  lemma {:induction false} AllFreeCount(fs: seq<Frame>)
    requires forall i :: 0 <= i < |fs| ==> fs[i].free
    ensures FreeCount(fs) == |fs|
    decreases |fs|
  {
    if |fs| > 0 {
      AllFreeCount(fs[1..]);
    }
  }

  // ---------------------------------------------------------------------
  // getppages(1)

  /** First-fit scan for a free frame from index `from` on. */
  function FirstFree(frames: seq<Frame>, from: nat): (r: Option<nat>)
    requires from <= |frames|
    ensures r.Some? ==> from <= r.value < |frames| && frames[r.value].free
                        && forall j :: from <= j < r.value ==> !frames[j].free
    ensures r.None? ==> forall j :: from <= j < |frames| ==> !frames[j].free
    decreases |frames| - from
  {
    if from == |frames| then None
    else if frames[from].free then Some(from)
    else FirstFree(frames, from + 1)
  }

  /** `getppages(1)`: claim the lowest-index free frame and return its address. */
  function GetPPage(ft: FrameTable): (r: Alloc)
    ensures !ft.booted ==> r == Unavailable(StealMem)
    ensures ft.booted ==> (r.Allocated? <==> !NoneFree(ft.frames))
    ensures ft.booted && NoneFree(ft.frames) ==> r == Unavailable(NoFreeFrame)
    ensures r.Allocated? ==> r.table.booted && SameAddrs(ft.frames, r.table.frames)
    ensures r.Allocated? ==> && FirstFree(ft.frames, 0).Some?
                             && var k := FirstFree(ft.frames, 0).value;
                                && LowestFree(ft.frames, k)
                                && r.addr == ft.frames[k].paddr
                                && r.table == FrameTable(true, ft.frames[k := Claimed(ft.frames[k].paddr)])
  {
    if !ft.booted then Unavailable(StealMem)
    else match FirstFree(ft.frames, 0)
      case None => Unavailable(NoFreeFrame)
      case Some(k) =>
        assert LowestFree(ft.frames, k);
        Allocated(ft.frames[k].paddr, FrameTable(true, ft.frames[k := Claimed(ft.frames[k].paddr)]))
  }

  /** `alloc_kpages(1)`: the frame's kernel-segment address, or 0 when the
      frame found lies at physical address 0. */
  function AllocKpage(ft: FrameTable): (r: Alloc)
    ensures r.Unavailable? <==> GetPPage(ft).Unavailable?
    ensures r.Unavailable? ==> r == GetPPage(ft)
    ensures r.Allocated? ==> && r.table == GetPPage(ft).table
                             && (GetPPage(ft).addr == 0 ==> r.addr == 0)
                             && (GetPPage(ft).addr != 0 ==> KvaddrToPaddr(r.addr) == GetPPage(ft).addr)
  {
    match GetPPage(ft)
    case Unavailable(why) => Unavailable(why)
    case Allocated(pa, t) =>
      KvaddrRoundTrip(pa);
      Allocated(if pa == 0 then 0 else PaddrToKvaddr(pa), t)
  }

  // ---------------------------------------------------------------------
  // free_kpages

  /** Scan for the first frame at address `a` from index `from` on. */
  function FirstWithAddr(frames: seq<Frame>, a: Word, from: nat): (r: Option<nat>)
    requires from <= |frames|
    ensures r.Some? ==> from <= r.value < |frames| && frames[r.value].paddr == a
                        && forall j :: from <= j < r.value ==> frames[j].paddr != a
    ensures r.None? ==> forall j :: from <= j < |frames| ==> frames[j].paddr != a
    decreases |frames| - from
  {
    if from == |frames| then None
    else if frames[from].paddr == a then Some(from)
    else FirstWithAddr(frames, a, from + 1)
  }

  /** `free_kpages(addr)`: the first frame at physical address
      `addr - MIPS_KSEG0` decides. Group size 1: it becomes vacant. Group
      size 0: the group loop exits at once and nothing changes. Larger
      groups: the group loop runs off the table and the kernel stops.
      Before bootstrap: no-op. */
  function FreeKpages(ft: FrameTable, addr: Word): (r: Release)
    ensures !ft.booted ==> r == Released(ft)
    ensures (forall i :: 0 <= i < |ft.frames| ==> ft.frames[i].paddr != KvaddrToPaddr(addr)) ==> r == Released(ft)
    ensures r.Released? ==> r.table.booted == ft.booted && SameAddrs(ft.frames, r.table.frames)
    ensures r.Released? ==> forall i :: 0 <= i < |ft.frames| && r.table.frames[i] != ft.frames[i] ==>
                              FirstAt(ft.frames, KvaddrToPaddr(addr), i) && ft.frames[i].groupSize == 1
                              && r.table.frames[i] == Vacant(ft.frames[i].paddr)
    ensures forall k :: ft.booted && FirstAt(ft.frames, KvaddrToPaddr(addr), k) && ft.frames[k].groupSize == 1 ==>
              r == Released(FrameTable(true, ft.frames[k := Vacant(ft.frames[k].paddr)]))
    ensures forall k :: ft.booted && FirstAt(ft.frames, KvaddrToPaddr(addr), k) && ft.frames[k].groupSize == 0 ==>
              r == Released(ft)
    ensures r.Halted? <==> ft.booted && exists k :: FirstAt(ft.frames, KvaddrToPaddr(addr), k) && ft.frames[k].groupSize >= 2
    ensures ft.booted && Inv(ft.frames) ==> r == Released(FrameTable(true, MarkFree(ft.frames, {KvaddrToPaddr(addr)})))
  {
    var target := KvaddrToPaddr(addr);
    if !ft.booted then Released(ft)
    else match FirstWithAddr(ft.frames, target, 0)
      case None => Released(ft)
      case Some(k) =>
        assert FirstAt(ft.frames, target, k);
        if ft.frames[k].groupSize == 1 then
          Released(FrameTable(true, ft.frames[k := Vacant(target)]))
        else if ft.frames[k].groupSize == 0 then
          Released(ft)
        else
          Halted
  }

  // ---------------------------------------------------------------------
  // Properties

  /** Allocation keeps the invariant and the frame addresses. */
  lemma GetPPagePreservesInv(ft: FrameTable)
    requires Inv(ft.frames)
    ensures GetPPage(ft).Allocated? ==> Inv(GetPPage(ft).table.frames) && SameAddrs(ft.frames, GetPPage(ft).table.frames)
  {
  }

  /** Release keeps the invariant and the frame addresses, and never halts
      on a table built by single-frame allocations. */
  lemma FreeKpagesPreservesInv(ft: FrameTable, addr: Word)
    requires Inv(ft.frames)
    ensures FreeKpages(ft, addr).Released?
    ensures Inv(FreeKpages(ft, addr).table.frames)
  {
    var r := FreeKpages(ft, addr);
    if ft.booted {
      assert r.table.frames == MarkFree(ft.frames, {KvaddrToPaddr(addr)});
    }
  }

  /** Freeing the kernel-segment address of a frame `getppages(1)` just
      returned restores the table exactly. */
  lemma AllocFreeRoundTrip(ft: FrameTable)
    requires Inv(ft.frames)
    ensures GetPPage(ft).Allocated? ==>
              FreeKpages(GetPPage(ft).table, PaddrToKvaddr(GetPPage(ft).addr)) == Released(ft)
  {
    var r := GetPPage(ft);
    if r.Allocated? {
      var k := FirstFree(ft.frames, 0).value;
      KvaddrRoundTrip(r.addr);
      var after := MarkFree(r.table.frames, {r.addr});
      forall i | 0 <= i < |ft.frames|
        ensures after[i] == ft.frames[i]
      {
        if i != k {
          assert ft.frames[i].paddr != r.addr;
        }
      }
      assert after == ft.frames;
    }
  }

  /** The same round trip through `alloc_kpages(1)`, whenever it returned a
      non-zero address. */
  lemma KpageRoundTrip(ft: FrameTable)
    requires Inv(ft.frames)
    ensures AllocKpage(ft).Allocated? && AllocKpage(ft).addr != 0 ==>
              FreeKpages(AllocKpage(ft).table, AllocKpage(ft).addr) == Released(ft)
  {
    AllocFreeRoundTrip(ft);
  }

  /** Claiming one free frame lowers the free count by exactly one. */
  lemma {:induction false} FreeCountClaim(frames: seq<Frame>, k: nat)
    requires k < |frames| && frames[k].free
    ensures FreeCount(frames[k := Claimed(frames[k].paddr)]) == FreeCount(frames) - 1
    decreases k
  {
    var after := frames[k := Claimed(frames[k].paddr)];
    if k == 0 {
      assert after[1..] == frames[1..];
    } else {
      assert after[1..] == frames[1..][k - 1 := Claimed(frames[k].paddr)];
      FreeCountClaim(frames[1..], k - 1);
    }
  }

  /** No frame is free exactly when the free count is zero. */
  lemma {:induction false} FreeCountZero(frames: seq<Frame>)
    ensures FreeCount(frames) == 0 <==> NoneFree(frames)
    decreases |frames|
  {
    if |frames| > 0 {
      FreeCountZero(frames[1..]);
      if NoneFree(frames[1..]) && !frames[0].free {
        forall i | 0 <= i < |frames|
          ensures !frames[i].free
        {
          if i > 0 {
            assert frames[i] == frames[1..][i - 1];
          }
        }
      }
    }
  }

  /** One allocation takes one frame from the pool and fails only when the
      pool is empty. */
  lemma GetPPageCount(ft: FrameTable)
    requires ft.booted
    ensures GetPPage(ft).Allocated? <==> FreeCount(ft.frames) > 0
    ensures GetPPage(ft).Allocated? ==> FreeCount(GetPPage(ft).table.frames) == FreeCount(ft.frames) - 1
  {
    FreeCountZero(ft.frames);
    var r := GetPPage(ft);
    if r.Allocated? {
      var k := FirstFree(ft.frames, 0).value;
      FreeCountClaim(ft.frames, k);
    }
  }
}

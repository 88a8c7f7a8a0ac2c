/** Properties of the core taken as a whole: sequences of frame
    operations after bootstrap, and a process set up by the usual
    create / define-region / prepare-load path taking faults.
 */
module System {
  import opened Machine
  import opened Wrappers
  import opened Frames
  import opened AddressSpace
  import opened Tlb
  import opened Fault

  /** A kernel page request: `alloc_kpages(1)`'s table effect, or
      `free_kpages(addr)`. */
  datatype FrameOp = GetPage | FreePage(kvaddr: Word)

  /** The table after one operation; `None` when the kernel stops (no free
      frame, or a release that runs off the table). */
  function Step(ft: FrameTable, op: FrameOp): Option<FrameTable> {
    match op
    case GetPage =>
      (match GetPPage(ft)
       case Allocated(_, t) => Some(t)
       case Unavailable(_) => None)
    case FreePage(a) =>
      (match FreeKpages(ft, a)
       case Released(t) => Some(t)
       case Halted => None)
  }

  function Run(ft: FrameTable, ops: seq<FrameOp>): Option<FrameTable>
    decreases |ops|
  {
    if ops == [] then Some(ft)
    else match Step(ft, ops[0])
      case None => None
      case Some(t) => Run(t, ops[1..])
  }

  /** Across any sequence of single-frame requests the table keeps its
      invariant and its addresses, and it only stops for lack of a frame. */
  lemma {:induction false} RunPreservesInv(ft: FrameTable, ops: seq<FrameOp>)
    requires ft.booted && Inv(ft.frames)
    ensures Run(ft, ops).Some? ==>
              Run(ft, ops).value.booted && Inv(Run(ft, ops).value.frames)
              && SameAddrs(ft.frames, Run(ft, ops).value.frames)
    ensures Run(ft, ops).None? ==>
              exists n :: 0 <= n < |ops| && ops[n] == GetPage && Run(ft, ops[..n]).Some?
                          && NoneFree(Run(ft, ops[..n]).value.frames)
    decreases |ops|
  {
    if ops != [] {
      var op := ops[0];
      if op.GetPage? {
        GetPPagePreservesInv(ft);
      } else {
        FreeKpagesPreservesInv(ft, op.kvaddr);
      }
      var s := Step(ft, op);
      assert ops[..0] == [];
      if s.Some? {
        RunPreservesInv(s.value, ops[1..]);
        if Run(s.value, ops[1..]).None? {
          var n :| 0 <= n < |ops[1..]| && ops[1..][n] == GetPage && Run(s.value, ops[1..][..n]).Some?
                   && NoneFree(Run(s.value, ops[1..][..n]).value.frames);
          assert ops[..n + 1][1..] == ops[1..][..n];
          assert ops[..n + 1][0] == op;
          assert Run(ft, ops[..n + 1]) == Run(s.value, ops[1..][..n]);
        }
      }
    }
  }

  /** After bootstrap, at every point reached by single-frame requests the
      frames are pairwise distinct, page-aligned and inside the range. */
  lemma BootedRunFramesDisjointInRange(first: Word, last: Word, ops: seq<FrameOp>)
    requires PageAligned(first)
    ensures var r := Run(Bootstrap(first, last), ops);
            r.Some? ==> && DistinctAddrs(r.value.frames)
                        && forall f :: f in r.value.frames ==>
                             first <= f.paddr && f.paddr + PAGE_SIZE <= last && PageAligned(f.paddr)
  {
    var t0 := Bootstrap(first, last);
    BootstrapWellFormed(first, last);
    RunPreservesInv(t0, ops);
    var r := Run(t0, ops);
    if r.Some? {
      forall f | f in r.value.frames
        ensures first <= f.paddr && f.paddr + PAGE_SIZE <= last && PageAligned(f.paddr)
      {
        var i :| 0 <= i < |r.value.frames| && r.value.frames[i] == f;
        assert t0.frames[i] in t0.frames;
      }
    }
  }

  // ---------------------------------------------------------------------
  // Sixteen-page scenario

  /** Frames `0 .. m - 1` are claimed, all others vacant, at bootstrap's
      addresses. */
  predicate ClaimedPrefix(frames: seq<Frame>, first: Word, m: nat) {
    forall i :: 0 <= i < |frames| ==>
      frames[i].paddr == first + i * PAGE_SIZE
      && frames[i] == (if i < m then Claimed(frames[i].paddr) else Vacant(frames[i].paddr))
  }

  lemma NextOfPrefix(frames: seq<Frame>, first: Word, m: nat)
    requires ClaimedPrefix(frames, first, m) && m < |frames|
    ensures var r := GetPPage(FrameTable(true, frames));
            r.Allocated? && r.addr == first + m * PAGE_SIZE
            && ClaimedPrefix(r.table.frames, first, m + 1)
  {
    assert frames[m].free;
  }

  /** Bootstrap over sixteen pages; four allocations return the first four
      pages in ascending order; freeing the second and allocating again
      returns exactly the freed address. */
  lemma SixteenPageScenario(first: Word)
    requires PageAligned(first) && first + 16 * PAGE_SIZE < WORD_MOD
    ensures var t0 := Bootstrap(first, first + 16 * PAGE_SIZE);
            var a1 := GetPPage(t0);
            a1.Allocated? && a1.addr == first &&
            var a2 := GetPPage(a1.table);
            a2.Allocated? && a2.addr == first + PAGE_SIZE &&
            var a3 := GetPPage(a2.table);
            a3.Allocated? && a3.addr == first + 2 * PAGE_SIZE &&
            var a4 := GetPPage(a3.table);
            a4.Allocated? && a4.addr == first + 3 * PAGE_SIZE &&
            var f := FreeKpages(a4.table, PaddrToKvaddr(a2.addr));
            f.Released? &&
            var a5 := GetPPage(f.table);
            a5.Allocated? && a5.addr == a2.addr
  {
    var last := first + 16 * PAGE_SIZE;
    var t0 := Bootstrap(first, last);
    assert |t0.frames| == 16;
    assert ClaimedPrefix(t0.frames, first, 0);
    NextOfPrefix(t0.frames, first, 0);
    var a1 := GetPPage(t0);
    NextOfPrefix(a1.table.frames, first, 1);
    var a2 := GetPPage(a1.table);
    NextOfPrefix(a2.table.frames, first, 2);
    var a3 := GetPPage(a2.table);
    NextOfPrefix(a3.table.frames, first, 3);
    var a4 := GetPPage(a3.table);
    ReallocAfterFree(a4.table.frames, first, 4, 1);
  }

  /** With the first `m` frames claimed, releasing frame `j < m` and
      allocating again hands frame `j` straight back. */
  lemma ReallocAfterFree(fs: seq<Frame>, first: Word, m: nat, j: nat)
    requires ClaimedPrefix(fs, first, m) && j < m <= |fs|
    ensures var f := FreeKpages(FrameTable(true, fs), PaddrToKvaddr(fs[j].paddr));
            && f.Released?
            && var a := GetPPage(f.table);
               a.Allocated? && a.addr == fs[j].paddr
  {
    var pa := fs[j].paddr;
    assert Inv(fs) by {
      forall i, k | 0 <= i < |fs| && 0 <= k < |fs| && i != k
        ensures fs[i].paddr != fs[k].paddr
      {
      }
    }
    KvaddrRoundTrip(pa);
    var g := MarkFree(fs, {pa});
    forall i | 0 <= i < j
      ensures !g[i].free
    {
      assert fs[i].paddr != pa;
    }
    assert g[j].free;
    assert FirstFree(g, 0) == Some(j);
  }

  // ---------------------------------------------------------------------
  // A loaded process taking faults

  /** Two regions defined on a fresh address space, as the loader does
      it. */
  function LoaderSpace(v1: Word, s1: Word, v2: Word, s2: Word): AddrSpace {
    DefineRegion(DefineRegion(Create(), v1, s1).1, v2, s2).1
  }

  /** Two regions at or above the first page with non-zero sizes
      that do not wrap satisfy every assertion the fault handler makes, and
      fit in a word. */
  lemma LoaderSpaceSetUp(v1: Word, s1: Word, v2: Word, s2: Word)
    requires PAGE_SIZE <= v1 && 0 < s1 && v1 + s1 + PAGE_SIZE <= WORD_MOD
    requires PAGE_SIZE <= v2 && 0 < s2 && v2 + s2 + PAGE_SIZE <= WORD_MOD
    ensures var sp := LoaderSpace(v1, s1, v2, s2);
            && sp.r1 == AlignRegion(v1, s1) && sp.r2 == AlignRegion(v2, s2)
            && EmptyTables(sp) && SetUp(sp) && Fits(sp.r1) && Fits(sp.r2)
  {
    var a1 := AlignRegion(v1, s1);
    var a2 := AlignRegion(v2, s2);
    assert a1.npages == (s1 + v1 % PAGE_SIZE + PAGE_SIZE - 1) / PAGE_SIZE;
    assert a2.npages == (s2 + v2 % PAGE_SIZE + PAGE_SIZE - 1) / PAGE_SIZE;
  }

  /** Frames handed to a space loaded from a table of page-aligned frames
      are page-aligned. */
  lemma LoadedPagesAligned(sp: AddrSpace, ft: FrameTable)
    requires Inv(ft.frames) && EmptyTables(sp)
    requires forall f :: f in ft.frames ==> PageAligned(f.paddr)
    ensures var load := PrepareLoad(sp, ft);
            load.Loaded? ==> forall i :: 0 <= i < |AllPages(load.space)| ==> PageAligned(AllPages(load.space)[i].paddr)
  {
    PrepareLoadEffect(sp, ft);
    var load := PrepareLoad(sp, ft);
    if load.Loaded? {
      var all := AllPages(load.space);
      forall i | 0 <= i < |all|
        ensures PageAligned(all[i].paddr)
      {
        assert all[i].paddr in PaddrSet(all);
        assert all[i].paddr in FreeAddrs(ft.frames);
        var j :| 0 <= j < |ft.frames| && ft.frames[j].free && ft.frames[j].paddr == all[i].paddr;
        assert ft.frames[j] in ft.frames;
      }
    }
  }

  /** A set-up space with empty tables, loaded from a table of page-aligned
      frames: every fault inside one of its regions resolves to the page
      that holds it. */
  lemma LoadedFaultResolves(sp: AddrSpace, ft: FrameTable,
                            faultType: int, faultAddress: Word, doneLoading: bool,
                            tlb: seq<TlbEntry>, victim: nat)
    requires Inv(ft.frames) && forall f :: f in ft.frames ==> PageAligned(f.paddr)
    requires EmptyTables(sp) && SetUp(sp) && Fits(sp.r1) && Fits(sp.r2)
    requires |tlb| == NUM_TLB && victim < NUM_TLB
    requires faultType == VM_FAULT_READ || faultType == VM_FAULT_WRITE
    ensures var load := PrepareLoad(sp, ft);
            load.Loaded? && Classify(load.space, PageTrunc(faultAddress)) != Unmapped ==>
              var r := VmFault(faultType, faultAddress, Running(load.space), doneLoading, tlb, victim);
              && r.Resolved?
              && var page := Lookup(load.space, Classify(load.space, PageTrunc(faultAddress))).value;
                 && page.vaddr == PageTrunc(faultAddress)
                 && page in AllPages(load.space)
                 && r.tlb[ChosenSlot(tlb, victim)] == NewEntry(load.space, page.vaddr, page.paddr, doneLoading)
  {
    var load := PrepareLoad(sp, ft);
    LoadedPagesAligned(sp, ft);
    if load.Loaded? && Classify(load.space, PageTrunc(faultAddress)) != Unmapped {
      PrepareLoadEffect(sp, ft);
      PreparedFaultResolves(faultType, faultAddress, load.space, doneLoading, tlb, victim);
    }
  }

  /** A process set up as the loader does it: bootstrap over a page-aligned
      range, a fresh address space, two regions at or above the first page
      with non-zero sizes, then `as_prepare_load`. Every fault inside one of the
      three regions resolves, and installs the frame recorded for exactly
      the faulting page, which is one of the frames the load claimed. */
  lemma LoadedProcessFaultsResolve(first: Word, last: Word,
                                   v1: Word, s1: Word, v2: Word, s2: Word,
                                   faultType: int, faultAddress: Word, doneLoading: bool,
                                   tlb: seq<TlbEntry>, victim: nat)
    requires PageAligned(first)
    requires PAGE_SIZE <= v1 && 0 < s1 && v1 + s1 + PAGE_SIZE <= WORD_MOD
    requires PAGE_SIZE <= v2 && 0 < s2 && v2 + s2 + PAGE_SIZE <= WORD_MOD
    requires |tlb| == NUM_TLB && victim < NUM_TLB
    requires faultType == VM_FAULT_READ || faultType == VM_FAULT_WRITE
    ensures var load := PrepareLoad(LoaderSpace(v1, s1, v2, s2), Bootstrap(first, last));
            load.Loaded? && Classify(load.space, PageTrunc(faultAddress)) != Unmapped ==>
              var r := VmFault(faultType, faultAddress, Running(load.space), doneLoading, tlb, victim);
              && r.Resolved?
              && var page := Lookup(load.space, Classify(load.space, PageTrunc(faultAddress))).value;
                 && page.vaddr == PageTrunc(faultAddress)
                 && page in AllPages(load.space)
                 && r.tlb[ChosenSlot(tlb, victim)] == NewEntry(load.space, page.vaddr, page.paddr, doneLoading)
  {
    LoaderSpaceSetUp(v1, s1, v2, s2);
    BootstrapWellFormed(first, last);
    LoadedFaultResolves(LoaderSpace(v1, s1, v2, s2), Bootstrap(first, last),
                        faultType, faultAddress, doneLoading, tlb, victim);
  }
}

/** The TLB fault handler `vm_fault`: dispatch on the fault kind, page
    truncation, classification of the page into region 1, region 2, the
    stack or nothing, page-table lookup, and installation of the
    translation into the TLB.
 */
module Fault {
  import opened Machine
  import opened Wrappers
  import opened AddressSpace
  import opened Tlb

  /** What `curproc` and `curproc_getas()` give the handler. */
  datatype Context = NoProc | NoAddrSpace | Running(space: AddrSpace)

  /** `Exited` is `sys__exit` of the faulting process; `Panic` is a failed
      kernel assertion (including the bounds check of `array_get`). */
  datatype FaultResult = Resolved(tlb: seq<TlbEntry>) | Failed(err: Errno) | Exited(status: int) | Panic

  /** Classification of a page-aligned fault address, with the page index
      inside the table consulted. */
  datatype Where = InCode(index: nat) | InData(index: nat) | InStack(index: nat) | Unmapped

  /** `vbase + npages * PAGE_SIZE` in 32-bit arithmetic. */
  function Top(r: Region): Word {
    Wrap(r.vbase + r.npages * PAGE_SIZE)
  }

  predicate InRegion(fa: Word, r: Region) {
    r.vbase <= fa < Top(r)
  }

  predicate InStackRegion(fa: Word) {
    STACK_BASE <= fa < USERSTACK
  }

  /** The region's extent fits in a word, as every region recorded by
      `as_define_region` does. */
  predicate Fits(r: Region) {
    r.npages * PAGE_SIZE < WORD_MOD
  }

  /** The assertions the handler makes about the address space. */
  predicate SetUp(sp: AddrSpace) {
    && sp.r1.vbase != 0 && sp.r1.npages != 0
    && sp.r2.vbase != 0 && sp.r2.npages != 0
    && PageAligned(sp.r1.vbase) && PageAligned(sp.r2.vbase)
  }

  /** Index of page `fa` in a region that holds it; the index names the page
      that contains `fa`. */
  lemma PageIndexInRegion(fa: Word, r: Region)
    ensures InRegion(fa, r) && Fits(r) ==>
              && r.vbase + r.npages * PAGE_SIZE < WORD_MOD
              && (fa - r.vbase) / PAGE_SIZE < r.npages
              && r.vbase + ((fa - r.vbase) / PAGE_SIZE) * PAGE_SIZE <= fa
              && fa < r.vbase + ((fa - r.vbase) / PAGE_SIZE + 1) * PAGE_SIZE
  {
    if InRegion(fa, r) && Fits(r) {
      if r.vbase + r.npages * PAGE_SIZE >= WORD_MOD {
        assert false;
      }
      assert Top(r) == r.vbase + r.npages * PAGE_SIZE;
    }
  }

  /** The ordered range tests of the handler: region 1, then region 2, then
      the stack; the index is the page's position from the region base. */
  function Classify(sp: AddrSpace, fa: Word): (w: Where)
    ensures w.InCode? <==> InRegion(fa, sp.r1)
    ensures w.InData? <==> !InRegion(fa, sp.r1) && InRegion(fa, sp.r2)
    ensures w.InStack? <==> !InRegion(fa, sp.r1) && !InRegion(fa, sp.r2) && InStackRegion(fa)
    ensures w.InCode? && Fits(sp.r1) ==>
              w.index < sp.r1.npages
              && sp.r1.vbase + w.index * PAGE_SIZE <= fa < sp.r1.vbase + (w.index + 1) * PAGE_SIZE
    ensures w.InData? && Fits(sp.r2) ==>
              w.index < sp.r2.npages
              && sp.r2.vbase + w.index * PAGE_SIZE <= fa < sp.r2.vbase + (w.index + 1) * PAGE_SIZE
    ensures w.InStack? ==>
              w.index < STACK_PAGES
              && STACK_BASE + w.index * PAGE_SIZE <= fa < STACK_BASE + (w.index + 1) * PAGE_SIZE
  {
    if InRegion(fa, sp.r1) then
      PageIndexInRegion(fa, sp.r1);
      InCode((fa - sp.r1.vbase) / PAGE_SIZE)
    else if InRegion(fa, sp.r2) then
      PageIndexInRegion(fa, sp.r2);
      InData((fa - sp.r2.vbase) / PAGE_SIZE)
    else if InStackRegion(fa) then
      InStack((fa - STACK_BASE) / PAGE_SIZE)
    else
      Unmapped
  }

  /** The page-table entry a classification selects, when the table is long
      enough (otherwise `array_get` fails its bounds assertion). */
  function Lookup(sp: AddrSpace, w: Where): Option<Page> {
    match w
    case InCode(i) => if i < |sp.code| then Some(sp.code[i]) else None
    case InData(i) => if i < |sp.data| then Some(sp.data[i]) else None
    case InStack(i) => if i < |sp.stack| then Some(sp.stack[i]) else None
    case Unmapped => None
  }

  /** Low-word flags: a code page after loading is installed without the
      dirty bit, every other page with it. */
  function Flags(sp: AddrSpace, fa: Word, doneLoading: bool): int {
    if InRegion(fa, sp.r1) && doneLoading then TLBLO_VALID else TLBLO_DIRTY + TLBLO_VALID
  }

  /** The entry written for page `fa` backed by the aligned frame `paddr`;
      for an aligned frame `paddr | flags` is `paddr + flags`. */
  function NewEntry(sp: AddrSpace, fa: Word, paddr: Word, doneLoading: bool): TlbEntry
    requires PageAligned(paddr)
  {
    TlbEntry(fa, paddr + Flags(sp, fa, doneLoading))
  }

  /** `vm_fault(faultType, faultAddress)` with the current context, the
      never-initialised `done_loading` flag, the TLB contents and the slot
      `tlb_random` would pick. */
  function VmFault(faultType: int, faultAddress: Word, ctx: Context, doneLoading: bool,
                   tlb: seq<TlbEntry>, victim: nat): (r: FaultResult)
    requires |tlb| == NUM_TLB && victim < NUM_TLB
    ensures faultType == VM_FAULT_READONLY ==> r == Exited(VM_FAULT_READONLY)
    ensures faultType != VM_FAULT_READ && faultType != VM_FAULT_WRITE && faultType != VM_FAULT_READONLY ==>
              r == Failed(EINVAL)
    ensures r == Failed(EINVAL) ==> faultType != VM_FAULT_READ && faultType != VM_FAULT_WRITE
    ensures (faultType == VM_FAULT_READ || faultType == VM_FAULT_WRITE) && !ctx.Running? ==> r == Failed(EFAULT)
    ensures ctx.Running? && SetUp(ctx.space) && (faultType == VM_FAULT_READ || faultType == VM_FAULT_WRITE) ==>
              (r == Failed(EFAULT) <==>
                 var fa := PageTrunc(faultAddress);
                 !InRegion(fa, ctx.space.r1) && !InRegion(fa, ctx.space.r2) && !InStackRegion(fa))
    ensures r.Exited? ==> faultType == VM_FAULT_READONLY
    ensures r.Failed? ==> r.err == EINVAL || r.err == EFAULT
    ensures r == Panic <==>
              && ctx.Running? && (faultType == VM_FAULT_READ || faultType == VM_FAULT_WRITE)
              && var w := Classify(ctx.space, PageTrunc(faultAddress));
                 || !SetUp(ctx.space)
                 || (w != Unmapped && (Lookup(ctx.space, w).None? || !PageAligned(Lookup(ctx.space, w).value.paddr)))
    ensures r.Resolved? ==> ctx.Running? && SetUp(ctx.space) && |r.tlb| == NUM_TLB
    ensures r.Resolved? ==>
              var fa := PageTrunc(faultAddress);
              var slot := ChosenSlot(tlb, victim);
              && Lookup(ctx.space, Classify(ctx.space, fa)).Some?
              && var pa := Lookup(ctx.space, Classify(ctx.space, fa)).value.paddr;
                 && PageAligned(pa)
                 && r.tlb[slot] == NewEntry(ctx.space, fa, pa, doneLoading)
                 && forall j :: 0 <= j < NUM_TLB && j != slot ==> r.tlb[j] == tlb[j]
  {
    var fa := PageTrunc(faultAddress);
    if faultType == VM_FAULT_READONLY then
      Exited(VM_FAULT_READONLY)
    else if faultType != VM_FAULT_READ && faultType != VM_FAULT_WRITE then
      Failed(EINVAL)
    else match ctx
      case NoProc => Failed(EFAULT)
      case NoAddrSpace => Failed(EFAULT)
      case Running(sp) =>
        if !SetUp(sp) then Panic
        else match Classify(sp, fa)
          case Unmapped => Failed(EFAULT)
          case w =>
            match Lookup(sp, w)
            case None => Panic
            case Some(page) =>
              if !PageAligned(page.paddr) then Panic
              else Resolved(Install(tlb, victim, NewEntry(sp, fa, page.paddr, doneLoading)))
  }

  // ---------------------------------------------------------------------
  // Properties

  /** The installed low word is valid, carries the frame, and is dirty
      exactly unless the page is in region 1 and loading is done. */
  lemma NewEntryFlags(sp: AddrSpace, fa: Word, paddr: Word, doneLoading: bool)
    requires PageAligned(paddr)
    ensures var e := NewEntry(sp, fa, paddr, doneLoading);
            && IsValid(e)
            && PageTrunc(e.lo) == paddr
            && (IsDirty(e) <==> !(InRegion(fa, sp.r1) && doneLoading))
  {
    var f := Flags(sp, fa, doneLoading);
    var q := paddr / PAGE_SIZE;
    assert paddr == PAGE_SIZE * q;
    if f == TLBLO_VALID {
      assert paddr + f == 512 * (8 * q + 1) + 0 == 1024 * (4 * q) + 512 == 4096 * q + 512;
      DivPlus(8 * q + 1, 0, 512);
      DivPlus(4 * q, 1, 2);
      DivPlus(4 * q, 512, 1024);
      DivPlus(2 * q, 0, 2);
      DivPlus(q, 512, 4096);
    } else {
      assert paddr + f == 512 * (8 * q + 3) + 0 == 1024 * (4 * q + 1) + 512 == 4096 * q + 1536;
      DivPlus(8 * q + 3, 0, 512);
      DivPlus(4 * q + 1, 1, 2);
      DivPlus(4 * q + 1, 512, 1024);
      DivPlus(2 * q, 1, 2);
      DivPlus(q, 1536, 4096);
    }
  }

  /** Translation depends only on the page: two faults anywhere in the same
      page, whatever the TLB holds and whichever slot is chosen, install the
      same virtual page and the same frame. */
  lemma SamePageSameFrame(k1: int, a1: Word, d1: bool, t1: seq<TlbEntry>, v1: nat,
                          k2: int, a2: Word, d2: bool, t2: seq<TlbEntry>, v2: nat, ctx: Context)
    requires |t1| == NUM_TLB && v1 < NUM_TLB && |t2| == NUM_TLB && v2 < NUM_TLB
    requires PageTrunc(a1) == PageTrunc(a2)
    requires VmFault(k1, a1, ctx, d1, t1, v1).Resolved? && VmFault(k2, a2, ctx, d2, t2, v2).Resolved?
    ensures var e1 := VmFault(k1, a1, ctx, d1, t1, v1).tlb[ChosenSlot(t1, v1)];
            var e2 := VmFault(k2, a2, ctx, d2, t2, v2).tlb[ChosenSlot(t2, v2)];
            e1.hi == e2.hi && PageTrunc(e1.lo) == PageTrunc(e2.lo)
  {
    var fa := PageTrunc(a1);
    var pa := Lookup(ctx.space, Classify(ctx.space, fa)).value.paddr;
    NewEntryFlags(ctx.space, fa, pa, d1);
    NewEntryFlags(ctx.space, fa, pa, d2);
  }

  /** In a table laid out from an aligned base, the entry at the index
      `Classify` computes is the page that holds the address. */
  lemma MappedEntryIsPage(pages: seq<Page>, base: Word, n: nat, i: nat, fa: Word)
    requires Maps(pages, base, n) && PageAligned(base) && PageAligned(fa)
    requires i < n && base + i * PAGE_SIZE <= fa < base + (i + 1) * PAGE_SIZE
    ensures pages[i].vaddr == fa
  {
    AlignedPlusPages(base, i);
    AlignedSamePage(base + i * PAGE_SIZE, fa);
  }

  /** On a prepared, set-up address space, the entry the handler looks up
      for a mapped page exists, is that page, and is one of the space's
      pages. */
  lemma PreparedLookup(sp: AddrSpace, fa: Word)
    requires Prepared(sp) && SetUp(sp) && Fits(sp.r1) && Fits(sp.r2)
    requires PageAligned(fa) && Classify(sp, fa) != Unmapped
    ensures Lookup(sp, Classify(sp, fa)).Some?
    ensures Lookup(sp, Classify(sp, fa)).value.vaddr == fa
    ensures Lookup(sp, Classify(sp, fa)).value in AllPages(sp)
  {
    var all := AllPages(sp);
    match Classify(sp, fa)
    case InCode(i) =>
      MappedEntryIsPage(sp.code, sp.r1.vbase, sp.r1.npages, i, fa);
      assert all[i] == sp.code[i];
    case InData(i) =>
      MappedEntryIsPage(sp.data, sp.r2.vbase, sp.r2.npages, i, fa);
      assert all[|sp.code| + i] == sp.data[i];
    case InStack(i) =>
      MappedEntryIsPage(sp.stack, STACK_BASE, STACK_PAGES, i, fa);
      assert all[|sp.code| + |sp.data| + i] == sp.stack[i];
  }

  /** On address spaces laid out by `as_prepare_load`, every address inside
      one of the three regions resolves, and the frame installed is the one
      recorded for exactly that virtual page. */
  lemma PreparedFaultResolves(faultType: int, faultAddress: Word, sp: AddrSpace, doneLoading: bool,
                              tlb: seq<TlbEntry>, victim: nat)
    requires |tlb| == NUM_TLB && victim < NUM_TLB
    requires faultType == VM_FAULT_READ || faultType == VM_FAULT_WRITE
    requires Prepared(sp) && SetUp(sp) && Fits(sp.r1) && Fits(sp.r2)
    requires forall i :: 0 <= i < |AllPages(sp)| ==> PageAligned(AllPages(sp)[i].paddr)
    requires Classify(sp, PageTrunc(faultAddress)) != Unmapped
    ensures var r := VmFault(faultType, faultAddress, Running(sp), doneLoading, tlb, victim);
            && r.Resolved?
            && var page := Lookup(sp, Classify(sp, PageTrunc(faultAddress))).value;
               && page.vaddr == PageTrunc(faultAddress)
               && page in AllPages(sp)
               && r.tlb[ChosenSlot(tlb, victim)] == NewEntry(sp, page.vaddr, page.paddr, doneLoading)
  {
    var fa := PageTrunc(faultAddress);
    PreparedLookup(sp, fa);
    var page := Lookup(sp, Classify(sp, fa)).value;
    var all := AllPages(sp);
    var k :| 0 <= k < |all| && all[k] == page;
    assert PageAligned(page.paddr);
  }

  /** After `as_activate` flushes the TLB, the next resolved fault lands in
      slot 0 and leaves every other slot invalid. */
  lemma FaultAfterActivate(faultType: int, faultAddress: Word, ctx: Context, doneLoading: bool,
                           tlb: seq<TlbEntry>, victim: nat)
    requires |tlb| == NUM_TLB && victim < NUM_TLB
    ensures var t := Activate(true, tlb);
            var r := VmFault(faultType, faultAddress, ctx, doneLoading, t, victim);
            r.Resolved? ==> ChosenSlot(t, victim) == 0 && forall j :: 1 <= j < NUM_TLB ==> !IsValid(r.tlb[j])
  {
    var t := Activate(true, tlb);
    assert !IsValid(t[0]);
  }
}

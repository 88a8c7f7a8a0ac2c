/** The per-process address space: two variable regions plus a fixed
    12-page stack, each backed by a flat page table of (virtual page,
    physical frame) pairs.

    Region definition is page-alignment arithmetic on 32-bit words;
    load preparation claims one frame per page from the frame table,
    region 1 first, then region 2, then the stack; destruction returns
    every frame.
 */
module AddressSpace {
  import opened Machine
  import opened Wrappers
  import opened Frames

  /** One page-table entry: a virtual page and the frame backing it. */
  datatype Page = Page(vaddr: Word, paddr: Word)

  /** A region: page-aligned base and length in pages. A base of 0 means
      the region is not defined yet. */
  datatype Region = Region(vbase: Word, npages: Word)

  /** `struct addrspace`. The physical bases of the source's descriptor are
      set to 0 by `as_create` and never changed, and are left out;
      `done_loading` is never initialised there and is an input of the fault
      handler instead. */
  datatype AddrSpace = AddrSpace(
    r1: Region,
    r2: Region,
    code: seq<Page>,
    data: seq<Page>,
    stack: seq<Page>)

  /** The result of one allocation loop, or of the whole load. The failed
      form is where `getppages` returned no frame of the table: the panic
      (`NoFreeFrame`), or before bootstrap the stealing allocator
      (`StealMem`), which is not modelled and where the source carries on
      with the stolen frame. */
  datatype Built = Built(pages: seq<Page>, table: FrameTable) | BuildFailed(why: Shortfall)

  datatype Load = Loaded(space: AddrSpace, table: FrameTable) | LoadFailed(why: Shortfall)

  // ---------------------------------------------------------------------
  // Helpers over page tables

  function PaddrSet(pages: seq<Page>): set<Word> {
    set i | 0 <= i < |pages| :: pages[i].paddr
  }

  predicate DistinctPaddrs(pages: seq<Page>) {
    forall i, j :: 0 <= i < |pages| && 0 <= j < |pages| && i != j ==> pages[i].paddr != pages[j].paddr
  }

  /** `table` holds exactly the `n` consecutive pages from `base` on. */
  predicate Maps(table: seq<Page>, base: Word, n: nat) {
    |table| == n && forall i :: 0 <= i < n ==> table[i].vaddr == Wrap(base + i * PAGE_SIZE)
  }

  /** `after` is `before` with the pages of `Maps(_, base, n)` appended. */
  predicate Extends(before: seq<Page>, after: seq<Page>, base: Word, n: nat) {
    |before| <= |after| && after[..|before|] == before && Maps(after[|before|..], base, n)
  }

  predicate EmptyTables(sp: AddrSpace) {
    sp.code == [] && sp.data == [] && sp.stack == []
  }

  function AllPages(sp: AddrSpace): seq<Page> {
    sp.code + sp.data + sp.stack
  }

  /** The page tables `as_prepare_load` builds from empty tables. */
  predicate Prepared(sp: AddrSpace) {
    && Maps(sp.code, sp.r1.vbase, sp.r1.npages)
    && Maps(sp.data, sp.r2.vbase, sp.r2.npages)
    && Maps(sp.stack, STACK_BASE, STACK_PAGES)
  }

  // ---------------------------------------------------------------------
  // as_create, as_define_region, as_define_stack

  /** `as_create`: no region defined, empty page tables. */
  function Create(): (r: AddrSpace)
    ensures r.r1 == Region(0, 0) && r.r2 == Region(0, 0) && EmptyTables(r)
  {
    AddrSpace(Region(0, 0), Region(0, 0), [], [], [])
  }

  /** The region `as_define_region` records for `[vaddr, vaddr + sz)`: the
      base rounded down to its page, the size grown by the dropped offset
      and rounded up to whole pages, all in 32-bit arithmetic. */
  function AlignRegion(vaddr: Word, sz: Word): (r: Region)
    ensures PageAligned(r.vbase) && r.vbase <= vaddr < r.vbase + PAGE_SIZE
    ensures r.npages * PAGE_SIZE < WORD_MOD
    ensures sz + vaddr % PAGE_SIZE + PAGE_SIZE - 1 < WORD_MOD ==>
              && vaddr + sz <= r.vbase + r.npages * PAGE_SIZE
              && r.vbase + (r.npages - 1) * PAGE_SIZE < vaddr + sz + (if sz == 0 && vaddr % PAGE_SIZE == 0 then PAGE_SIZE else 0)
              && r.npages == (sz + vaddr % PAGE_SIZE + PAGE_SIZE - 1) / PAGE_SIZE
  {
    var off := vaddr % PAGE_SIZE;
    var grown := Wrap(sz + off);
    var rounded := PageTrunc(Wrap(grown + PAGE_SIZE - 1));
    Region(vaddr - off, rounded / PAGE_SIZE)
  }

  /** `as_define_region`: fill region 1 if its base is 0, else region 2 if
      its base is 0, else refuse with `EUNIMP` and change nothing. The
      permission flags are ignored by the source and are not parameters. */
  function DefineRegion(sp: AddrSpace, vaddr: Word, sz: Word): (r: (Outcome<Errno>, AddrSpace))
    ensures r.0 == Pass <==> sp.r1.vbase == 0 || sp.r2.vbase == 0
    ensures r.0.Fail? ==> r.0.error == EUNIMP && r.1 == sp
    ensures r.1.code == sp.code && r.1.data == sp.data && r.1.stack == sp.stack
    ensures sp.r1.vbase == 0 ==> r.1.r1 == AlignRegion(vaddr, sz) && r.1.r2 == sp.r2
    ensures sp.r1.vbase != 0 ==> r.1.r1 == sp.r1
    ensures sp.r1.vbase != 0 && sp.r2.vbase == 0 ==> r.1.r2 == AlignRegion(vaddr, sz)
  {
    var region := AlignRegion(vaddr, sz);
    if sp.r1.vbase == 0 then (Pass, sp.(r1 := region))
    else if sp.r2.vbase == 0 then (Pass, sp.(r2 := region))
    else (Fail(EUNIMP), sp)
  }

  /** `as_define_stack`: the initial stack pointer is the fixed stack top. */
  function DefineStack(sp: AddrSpace): (r: (Outcome<Errno>, Word))
    ensures r.0 == Pass && r.1 == STACK_BASE + STACK_PAGES * PAGE_SIZE
  {
    (Pass, USERSTACK)
  }

  /** A fresh address space has empty page tables, accepts a first region
      whatever its arguments, and is destroyed without releasing a frame. */
  lemma FreshSpace(vaddr: Word, sz: Word, ft: FrameTable)
    ensures EmptyTables(Create())
    ensures DefineRegion(Create(), vaddr, sz) == (Pass, Create().(r1 := AlignRegion(vaddr, sz)))
    ensures Destroy(Create(), ft) == Released(ft)
  {
  }

  /** Two regions with bases of at least one page fill both slots; a third
      definition is refused and leaves both regions as they were. */
  lemma ThirdRegionRefused(v1: Word, s1: Word, v2: Word, s2: Word, v3: Word, s3: Word)
    requires PAGE_SIZE <= v1 && PAGE_SIZE <= v2
    ensures var (st1, a1) := DefineRegion(Create(), v1, s1);
            var (st2, a2) := DefineRegion(a1, v2, s2);
            var (st3, a3) := DefineRegion(a2, v3, s3);
            && st1 == Pass && st2 == Pass && st3 == Fail(EUNIMP)
            && a3.r1 == AlignRegion(v1, s1) && a3.r2 == AlignRegion(v2, s2)
  {
    assert AlignRegion(v1, s1).vbase != 0;
    assert AlignRegion(v2, s2).vbase != 0;
  }

  /** A region whose aligned base is 0 leaves region 1 looking undefined, so
      the next definition overwrites it instead of filling region 2. */
  lemma ZeroBaseRegionOverwritten(v1: Word, s1: Word, v2: Word, s2: Word)
    requires v1 < PAGE_SIZE
    ensures var (_, a1) := DefineRegion(Create(), v1, s1);
            var (st2, a2) := DefineRegion(a1, v2, s2);
            st2 == Pass && a2.r1 == AlignRegion(v2, s2) && a2.r2 == Region(0, 0)
  {
    assert AlignRegion(v1, s1).vbase == 0;
  }

  // ---------------------------------------------------------------------
  // as_prepare_load

  /** The loop of `as_prepare_load` for one region: `n` pages from `base`,
      each paired with a frame from `getppages(1)`, in ascending order. */
  function AllocPages(ft: FrameTable, base: Word, n: nat): (r: Built)
    ensures r.Built? ==> Maps(r.pages, base, n) && r.table.booted == ft.booted
    ensures r.Built? ==> SameAddrs(ft.frames, r.table.frames)
    ensures r.BuildFailed? ==> n > 0 && r.why == (if ft.booted then NoFreeFrame else StealMem)
    decreases n
  {
    if n == 0 then Built([], ft)
    else match AllocPages(ft, base, n - 1)
      case BuildFailed(why) => BuildFailed(why)
      case Built(pages, t) =>
        match GetPPage(t)
        case Unavailable(why) => BuildFailed(why)
        case Allocated(pa, t') =>
          var page := Page(Wrap(base + (n - 1) * PAGE_SIZE), pa);
          MapsAppend(pages, page, base, n - 1);
          Built(pages + [page], t')
  }

  lemma MapsAppend(pages: seq<Page>, page: Page, base: Word, n: nat)
    requires Maps(pages, base, n) && page.vaddr == Wrap(base + n * PAGE_SIZE)
    ensures Maps(pages + [page], base, n + 1)
  {
    var ps := pages + [page];
    forall i | 0 <= i < n + 1
      ensures ps[i].vaddr == Wrap(base + i * PAGE_SIZE)
    {
      if i < n {
        assert ps[i] == pages[i];
      }
    }
  }

  /** One loop of `as_prepare_load`: the region's pages appended to the
      table it already holds. */
  function ExtendTable(before: seq<Page>, ft: FrameTable, base: Word, n: nat): (r: Built)
    ensures r.Built? ==> && Extends(before, r.pages, base, n)
                         && r.table.booted == ft.booted && SameAddrs(ft.frames, r.table.frames)
    ensures r.BuildFailed? ==> r.why == (if ft.booted then NoFreeFrame else StealMem)
  {
    match AllocPages(ft, base, n)
    case BuildFailed(why) => BuildFailed(why)
    case Built(pages, t) =>
      assert (before + pages)[|before|..] == pages;
      assert (before + pages)[..|before|] == before;
      Built(before + pages, t)
  }

  /** `after` is `before` with its regions unchanged and each page table
      extended by one page per region page, at the region's addresses;
      `table` is a booted table over the same frames as `ft`. */
  predicate LoadedFrom(before: AddrSpace, ft: FrameTable, after: AddrSpace, table: FrameTable) {
    && after.r1 == before.r1 && after.r2 == before.r2
    && Extends(before.code, after.code, before.r1.vbase, before.r1.npages)
    && Extends(before.data, after.data, before.r2.vbase, before.r2.npages)
    && Extends(before.stack, after.stack, STACK_BASE, STACK_PAGES)
    && table.booted && SameAddrs(ft.frames, table.frames)
  }

  /** `as_prepare_load`: append the code, data and stack pages, in that
      order, to the three page tables. */
  function PrepareLoad(sp: AddrSpace, ft: FrameTable): (r: Load)
    ensures match r
            case Loaded(space, table) => LoadedFrom(sp, ft, space, table)
            case LoadFailed(why) => why == (if ft.booted then NoFreeFrame else StealMem)
  {
    match ExtendTable(sp.code, ft, sp.r1.vbase, sp.r1.npages)
    case BuildFailed(why) => LoadFailed(why)
    case Built(code, t1) =>
      match ExtendTable(sp.data, t1, sp.r2.vbase, sp.r2.npages)
      case BuildFailed(why) => LoadFailed(why)
      case Built(data, t2) =>
        match ExtendTable(sp.stack, t2, STACK_BASE, STACK_PAGES)
        case BuildFailed(why) => LoadFailed(why)
        case Built(stack, t3) =>
          SameAddrsTrans(ft.frames, t1.frames, t2.frames);
          SameAddrsTrans(ft.frames, t2.frames, t3.frames);
          Loaded(sp.(code := code, data := data, stack := stack), t3)
  }

  lemma SameAddrsTrans(a: seq<Frame>, b: seq<Frame>, c: seq<Frame>)
    requires SameAddrs(a, b) && SameAddrs(b, c)
    ensures SameAddrs(a, c)
  {
  }

  // ---------------------------------------------------------------------
  // as_destroy

  /** One loop of `as_destroy`: free every page's frame through its
      kernel-segment address, last index first. */
  function FreePages(ft: FrameTable, pages: seq<Page>): (r: Release)
    ensures !ft.booted || pages == [] ==> r == Released(ft)
    ensures r.Released? ==> r.table.booted == ft.booted && SameAddrs(ft.frames, r.table.frames)
    decreases |pages|
  {
    if pages == [] then Released(ft)
    else match FreeKpages(ft, PaddrToKvaddr(pages[|pages| - 1].paddr))
      case Halted => Halted
      case Released(t) => FreePages(t, pages[..|pages| - 1])
  }

  /** `as_destroy`: free the code, then the data, then the stack frames. */
  function Destroy(sp: AddrSpace, ft: FrameTable): (r: Release)
    ensures !ft.booted || EmptyTables(sp) ==> r == Released(ft)
    ensures r.Released? ==> r.table.booted == ft.booted && SameAddrs(ft.frames, r.table.frames)
  {
    match FreePages(ft, sp.code)
    case Halted => Halted
    case Released(t1) =>
      match FreePages(t1, sp.data)
      case Halted => Halted
      case Released(t2) => FreePages(t2, sp.stack)
  }

  // ---------------------------------------------------------------------
  // Properties of load and destroy

  lemma PaddrSetAppend(a: seq<Page>, b: seq<Page>)
    ensures PaddrSet(a + b) == PaddrSet(a) + PaddrSet(b)
  {
    var ab := a + b;
    forall x | x in PaddrSet(a)
      ensures x in PaddrSet(ab)
    {
      var j :| 0 <= j < |a| && a[j].paddr == x;
      assert ab[j] == a[j];
    }
    forall x | x in PaddrSet(b)
      ensures x in PaddrSet(ab)
    {
      var j :| 0 <= j < |b| && b[j].paddr == x;
      assert ab[|a| + j] == b[j];
    }
    forall x | x in PaddrSet(ab)
      ensures x in PaddrSet(a) + PaddrSet(b)
    {
      var j :| 0 <= j < |ab| && ab[j].paddr == x;
      if j >= |a| {
        assert ab[j] == b[j - |a|];
      }
    }
  }

  lemma PaddrSetSingle(p: Page)
    ensures PaddrSet([p]) == {p.paddr}
  {
    assert [p][0] == p;
  }

  lemma DistinctAppend(a: seq<Page>, b: seq<Page>)
    requires DistinctPaddrs(a) && DistinctPaddrs(b) && PaddrSet(a) !! PaddrSet(b)
    ensures DistinctPaddrs(a + b)
  {
    var ab := a + b;
    forall i, j | 0 <= i < |ab| && 0 <= j < |ab| && i != j
      ensures ab[i].paddr != ab[j].paddr
    {
      if i < |a| && j >= |a| {
        assert ab[j] == b[j - |a|];
        assert ab[i].paddr in PaddrSet(a) && ab[j].paddr in PaddrSet(b);
      } else if i >= |a| && j < |a| {
        assert ab[i] == b[i - |a|];
        assert ab[j].paddr in PaddrSet(a) && ab[i].paddr in PaddrSet(b);
      } else if i >= |a| && j >= |a| {
        assert ab[i] == b[i - |a|] && ab[j] == b[j - |a|];
      }
    }
  }

  lemma MarkClaimedTwice(f: seq<Frame>, a: set<Word>, b: set<Word>)
    ensures MarkClaimed(MarkClaimed(f, a), b) == MarkClaimed(f, a + b)
  {
  }

  lemma MarkFreeTwice(f: seq<Frame>, a: set<Word>, b: set<Word>)
    ensures MarkFree(MarkFree(f, a), b) == MarkFree(f, a + b)
  {
  }

  /** Claiming `a` and then `b` from what is still free claims the disjoint
      union of the two. */
  lemma ClaimInSequence(f: seq<Frame>, a: set<Word>, b: set<Word>)
    requires a <= FreeAddrs(f) && b <= FreeAddrs(MarkClaimed(f, a))
    ensures a !! b && a + b <= FreeAddrs(f)
    ensures MarkClaimed(MarkClaimed(f, a), b) == MarkClaimed(f, a + b)
  {
    FreeAddrsClaimed(f, a);
    MarkClaimedTwice(f, a, b);
  }

  /** Claiming one more free frame of a partly claimed table is claiming
      its address together with the others. */
  lemma ClaimOneMore(f: seq<Frame>, s: set<Word>, k: nat)
    requires Inv(f) && k < |f| && MarkClaimed(f, s)[k].free
    ensures f[k].paddr !in s && f[k].paddr in FreeAddrs(f)
    ensures MarkClaimed(f, s)[k := Claimed(f[k].paddr)] == MarkClaimed(f, s + {f[k].paddr})
  {
    var pa := f[k].paddr;
    var g := MarkClaimed(f, s)[k := Claimed(pa)];
    var want := MarkClaimed(f, s + {pa});
    forall i | 0 <= i < |f|
      ensures g[i] == want[i]
    {
      if i != k {
        assert f[i].paddr != pa;
      }
    }
  }

  lemma FreeAddrsClaimed(f: seq<Frame>, a: set<Word>)
    ensures FreeAddrs(MarkClaimed(f, a)) == FreeAddrs(f) - a
  {
    var g := MarkClaimed(f, a);
    forall x | x in FreeAddrs(f) - a
      ensures x in FreeAddrs(g)
    {
      var i :| 0 <= i < |f| && f[i].free && f[i].paddr == x;
      assert g[i] == f[i];
    }
  }

  lemma InvFreed(f: seq<Frame>, a: set<Word>)
    requires Inv(f)
    ensures Inv(MarkFree(f, a))
  {
  }

  /** Claiming frames that were free and then freeing them gives back the
      original table. */
  lemma ClaimFreeCancel(f: seq<Frame>, s: set<Word>)
    requires Inv(f) && s <= FreeAddrs(f)
    ensures MarkFree(MarkClaimed(f, s), s) == f
  {
    var g := MarkFree(MarkClaimed(f, s), s);
    forall i | 0 <= i < |f|
      ensures g[i] == f[i]
    {
      if f[i].paddr in s {
        var j :| 0 <= j < |f| && f[j].free && f[j].paddr == f[i].paddr;
        assert i == j;
      }
    }
  }

  /** One region's loop claims `n` distinct frames that were free, changes
      nothing else, and succeeds exactly when `n` frames are free. */
  lemma {:induction false} AllocPagesEffect(ft: FrameTable, base: Word, n: nat)
    requires Inv(ft.frames)
    ensures var r := AllocPages(ft, base, n);
            r.Built? ==> && Inv(r.table.frames)
                         && DistinctPaddrs(r.pages)
                         && PaddrSet(r.pages) <= FreeAddrs(ft.frames)
                         && r.table.frames == MarkClaimed(ft.frames, PaddrSet(r.pages))
                         && FreeCount(r.table.frames) == FreeCount(ft.frames) - n
    ensures ft.booted ==> (AllocPages(ft, base, n).Built? <==> n <= FreeCount(ft.frames))
    decreases n
  {
    var r := AllocPages(ft, base, n);
    if n == 0 {
      assert PaddrSet(r.pages) == {};
      assert MarkClaimed(ft.frames, {}) == ft.frames;
    } else {
      AllocPagesEffect(ft, base, n - 1);
      var prev := AllocPages(ft, base, n - 1);
      if prev.Built? {
        var t := prev.table;
        var s := PaddrSet(prev.pages);
        if t.booted {
          GetPPageCount(t);
        }
        GetPPagePreservesInv(t);
        var g := GetPPage(t);
        if g.Allocated? {
          var k := FirstFree(t.frames, 0).value;
          var pa := g.addr;
          var page := Page(Wrap(base + (n - 1) * PAGE_SIZE), pa);
          assert r.pages == prev.pages + [page];
          ClaimOneMore(ft.frames, s, k);
          PaddrSetAppend(prev.pages, [page]);
          PaddrSetSingle(page);
          DistinctAppend(prev.pages, [page]);
        }
      }
    }
  }

  /** `as_prepare_load` on empty tables builds the three page tables with
      `npages1`, `npages2` and 12 entries at consecutive pages, backed by
      pairwise distinct frames that were free and are now claimed. */
  lemma PrepareLoadEffect(sp: AddrSpace, ft: FrameTable)
    requires Inv(ft.frames) && EmptyTables(sp)
    ensures var r := PrepareLoad(sp, ft);
            r.Loaded? ==> && Prepared(r.space)
                          && DistinctPaddrs(AllPages(r.space))
                          && PaddrSet(AllPages(r.space)) <= FreeAddrs(ft.frames)
                          && r.table.frames == MarkClaimed(ft.frames, PaddrSet(AllPages(r.space)))
                          && Inv(r.table.frames)
    ensures ft.booted ==>
              (PrepareLoad(sp, ft).Loaded? <==> sp.r1.npages + sp.r2.npages + STACK_PAGES <= FreeCount(ft.frames))
  {
    var r := PrepareLoad(sp, ft);
    AllocPagesEffect(ft, sp.r1.vbase, sp.r1.npages);
    var b1 := AllocPages(ft, sp.r1.vbase, sp.r1.npages);
    if b1.Built? {
      var t1 := b1.table;
      AllocPagesEffect(t1, sp.r2.vbase, sp.r2.npages);
      var b2 := AllocPages(t1, sp.r2.vbase, sp.r2.npages);
      if b2.Built? {
        var t2 := b2.table;
        AllocPagesEffect(t2, STACK_BASE, STACK_PAGES);
        var b3 := AllocPages(t2, STACK_BASE, STACK_PAGES);
        if b3.Built? {
          var s1, s2, s3 := PaddrSet(b1.pages), PaddrSet(b2.pages), PaddrSet(b3.pages);
          assert r.space.code == b1.pages && r.space.data == b2.pages && r.space.stack == b3.pages;
          ClaimInSequence(ft.frames, s1, s2);
          assert t2.frames == MarkClaimed(ft.frames, s1 + s2);
          ClaimInSequence(ft.frames, s1 + s2, s3);
          assert b3.table.frames == MarkClaimed(ft.frames, s1 + s2 + s3);
          PaddrSetAppend(b1.pages, b2.pages);
          DistinctAppend(b1.pages, b2.pages);
          PaddrSetAppend(b1.pages + b2.pages, b3.pages);
          DistinctAppend(b1.pages + b2.pages, b3.pages);
          assert AllPages(r.space) == b1.pages + b2.pages + b3.pages;
        }
      }
    }
  }

  /** One loop of `as_destroy` frees exactly the frames of its table. */
  lemma {:induction false} FreePagesEffect(ft: FrameTable, pages: seq<Page>)
    requires Inv(ft.frames)
    ensures FreePages(ft, pages) == Released(if ft.booted then FrameTable(true, MarkFree(ft.frames, PaddrSet(pages))) else ft)
    decreases |pages|
  {
    if pages == [] {
      assert PaddrSet(pages) == {};
      assert MarkFree(ft.frames, {}) == ft.frames;
    } else {
      var last := pages[|pages| - 1];
      var init := pages[..|pages| - 1];
      KvaddrRoundTrip(last.paddr);
      FreeKpagesPreservesInv(ft, PaddrToKvaddr(last.paddr));
      var t := FreeKpages(ft, PaddrToKvaddr(last.paddr)).table;
      FreePagesEffect(t, init);
      assert pages == init + [last];
      PaddrSetAppend(init, [last]);
      PaddrSetSingle(last);
      if ft.booted {
        MarkFreeTwice(ft.frames, {last.paddr}, PaddrSet(init));
        assert {last.paddr} + PaddrSet(init) == PaddrSet(pages);
      }
    }
  }

  /** `as_destroy` returns every frame of the three page tables to the free
      state and touches no other frame. */
  lemma DestroyEffect(sp: AddrSpace, ft: FrameTable)
    requires Inv(ft.frames)
    ensures Destroy(sp, ft) == Released(if ft.booted then FrameTable(true, MarkFree(ft.frames, PaddrSet(AllPages(sp)))) else ft)
  {
    FreePagesEffect(ft, sp.code);
    var t1 := FreePages(ft, sp.code).table;
    InvFreed(ft.frames, PaddrSet(sp.code));
    FreePagesEffect(t1, sp.data);
    var t2 := FreePages(t1, sp.data).table;
    InvFreed(t1.frames, PaddrSet(sp.data));
    FreePagesEffect(t2, sp.stack);
    PaddrSetAppend(sp.code, sp.data);
    PaddrSetAppend(sp.code + sp.data, sp.stack);
    if ft.booted {
      MarkFreeTwice(ft.frames, PaddrSet(sp.code), PaddrSet(sp.data));
      MarkFreeTwice(ft.frames, PaddrSet(sp.code) + PaddrSet(sp.data), PaddrSet(sp.stack));
    }
  }

  /** An address space destroyed before any load frees nothing. */
  lemma DestroyEmptyFreesNothing(sp: AddrSpace, ft: FrameTable)
    requires EmptyTables(sp)
    ensures Destroy(sp, ft) == Released(ft)
  {
  }

  /** Preparing a fresh address space and destroying it restores the frame
      table exactly, so the pool of free frames is what it was. */
  lemma LoadDestroyRoundTrip(sp: AddrSpace, ft: FrameTable)
    requires Inv(ft.frames) && EmptyTables(sp)
    ensures PrepareLoad(sp, ft).Loaded? ==>
              Destroy(PrepareLoad(sp, ft).space, PrepareLoad(sp, ft).table) == Released(ft)
  {
    var r := PrepareLoad(sp, ft);
    if r.Loaded? {
      PrepareLoadEffect(sp, ft);
      DestroyEffect(r.space, r.table);
      ClaimFreeCancel(ft.frames, PaddrSet(AllPages(r.space)));
    }
  }

  /** The stack pointer `as_define_stack` hands out is the top of the stack
      pages `as_prepare_load` mapped. */
  lemma StackTopIsEndOfStackPages(sp: AddrSpace)
    requires Prepared(sp)
    ensures DefineStack(sp).1 == sp.stack[STACK_PAGES - 1].vaddr + PAGE_SIZE
    ensures forall i :: 0 <= i < STACK_PAGES ==> STACK_BASE <= sp.stack[i].vaddr < DefineStack(sp).1
  {
  }
}

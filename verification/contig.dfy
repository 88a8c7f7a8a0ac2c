/** Multi-frame allocation. The run search of `getppages` for more than one
    frame, exactly as written, computes the run's address from the loop
    index in a way that does not name the run's first frame; the corrected
    search and the intended allocate/release pair are below it.
 */
module ContiguousRun {
  import opened Machine
  import opened Wrappers
  import opened Frames

  /** Frame `i` sits at `first + i * PAGE_SIZE`, as bootstrap lays them out. */
  predicate Contiguous(frames: seq<Frame>, first: Word) {
    forall i :: 0 <= i < |frames| ==> frames[i].paddr == first + i * PAGE_SIZE
  }

  /** Frames `k .. k + n - 1` exist and are all free. */
  predicate RunAt(frames: seq<Frame>, k: int, n: nat) {
    0 <= k && k + n <= |frames| && forall j :: k <= j < k + n ==> frames[j].free
  }

  // ---------------------------------------------------------------------
  // As written

  /** The streak-counting loop of the multi-frame branch as written: the
      test `avail == npages` runs before frame `i` is looked at, and the
      address is computed as `frames[i].paddr - PAGE_SIZE * (i - 1)`.
      `None` is the exit without a hit, where the address stays
      uninitialised. */
  function RunSearchAsWritten(frames: seq<Frame>, npages: nat, i: nat, avail: nat): Option<Word>
    requires i <= |frames|
    decreases |frames| - i
  {
    if i == |frames| then None
    else if avail == npages then Some(Wrap(frames[i].paddr - PAGE_SIZE * (i - 1)))
    else if frames[i].free then RunSearchAsWritten(frames, npages, i + 1, avail + 1)
    else RunSearchAsWritten(frames, npages, i + 1, 0)
  }

  /** On a bootstrap-shaped table the as-written search, whenever it hits,
      yields the address of the second frame, wherever the run lies. */
  lemma {:induction false} AsWrittenAlwaysSecondFrame(frames: seq<Frame>, first: Word, npages: nat, i: nat, avail: nat)
    requires i <= |frames| && Contiguous(frames, first)
    ensures RunSearchAsWritten(frames, npages, i, avail).Some? ==>
              RunSearchAsWritten(frames, npages, i, avail).value == Wrap(first + PAGE_SIZE)
    decreases |frames| - i
  {
    if i < |frames| && avail != npages {
      if frames[i].free {
        AsWrittenAlwaysSecondFrame(frames, first, npages, i + 1, avail + 1);
      } else {
        AsWrittenAlwaysSecondFrame(frames, first, npages, i + 1, 0);
      }
    } else if i < |frames| {
      assert frames[i].paddr - PAGE_SIZE * (i - 1) == first + PAGE_SIZE;
    }
  }

  /** Three free frames, two requested: the as-written search names the
      second frame, the first fit starts at the first. */
  lemma AsWrittenMissesRun()
    ensures var fs := [Vacant(0x63000), Vacant(0x64000), Vacant(0x65000)];
            && RunSearchAsWritten(fs, 2, 0, 0) == Some(0x64000)
            && FirstFitRun(fs, 2) == Some(0)
            && fs[0].paddr == 0x63000
  {
    var fs := [Vacant(0x63000), Vacant(0x64000), Vacant(0x65000)];
    assert RunSearchAsWritten(fs, 2, 2, 2) == Some(0x64000);
    assert RunScan(fs, 2, 1, 1) == Some(0);
  }

  /** Whenever the as-written search hits, it does so at some frame `h`
      with the `npages` frames just before `h` all free: the run it reacts
      to, starting at `k = h - npages`, ends before frame `h` and so never
      at the last frame. */
  lemma {:induction false} AsWrittenHitBeforeLast(frames: seq<Frame>, npages: nat, i: nat, avail: nat)
    requires i <= |frames| && avail <= i
    requires forall j :: i - avail <= j < i ==> frames[j].free
    ensures RunSearchAsWritten(frames, npages, i, avail).Some? ==>
              exists k :: RunAt(frames, k, npages) && i <= k + npages < |frames|
    decreases |frames| - i
  {
    if i < |frames| {
      if avail == npages {
        var k := i - npages;
        assert RunAt(frames, k, npages) && k + npages == i;
      } else if frames[i].free {
        AsWrittenHitBeforeLast(frames, npages, i + 1, avail + 1);
      } else {
        AsWrittenHitBeforeLast(frames, npages, i + 1, 0);
      }
    }
  }

  /** When every run of `npages` free frames ends at the last frame, the
      as-written search reports nothing, although the first fit finds the
      run whenever there is one. */
  lemma AsWrittenMissesFinalRun(frames: seq<Frame>, npages: nat)
    requires 1 <= npages
    requires forall k :: RunAt(frames, k, npages) ==> k + npages == |frames|
    ensures RunSearchAsWritten(frames, npages, 0, 0) == None
    ensures RunAt(frames, |frames| - npages, npages) ==> FirstFitRun(frames, npages) == Some(|frames| - npages)
  {
    AsWrittenHitBeforeLast(frames, npages, 0, 0);
  }

  /** An instance: two free frames at the end of the table, two requested. */
  lemma FinalRunInstance()
    ensures var fs := [Claimed(0x63000), Vacant(0x64000), Vacant(0x65000)];
            && RunSearchAsWritten(fs, 2, 0, 0) == None
            && FirstFitRun(fs, 2) == Some(1)
  {
    var fs := [Claimed(0x63000), Vacant(0x64000), Vacant(0x65000)];
    forall k | RunAt(fs, k, 2)
      ensures k + 2 == |fs|
    {
      assert fs[k].free;
    }
    AsWrittenMissesFinalRun(fs, 2);
    assert RunAt(fs, 1, 2);
  }

  // ---------------------------------------------------------------------
  // Corrected search

  /** Streak-counting first-fit scan, corrected: frame `i` extends the
      streak first, and a streak of `n` ending at `i` starts at `i + 1 - n`.
      `streak` is the number of free frames just before `i`. */
  function RunScan(frames: seq<Frame>, n: nat, i: nat, streak: nat): (r: Option<nat>)
    requires 1 <= n && i <= |frames| && streak < n && streak <= i
    requires forall j :: i - streak <= j < i ==> frames[j].free
    requires streak == i || !frames[i - streak - 1].free
    requires forall k :: 0 <= k && k + n <= i ==> !RunAt(frames, k, n)
    ensures r.Some? ==> RunAt(frames, r.value, n) && forall k :: 0 <= k < r.value ==> !RunAt(frames, k, n)
    ensures r.None? ==> forall k :: 0 <= k <= |frames| ==> !RunAt(frames, k, n)
    decreases |frames| - i
  {
    if i == |frames| then
      None
    else if frames[i].free then
      if streak + 1 == n then Some(i + 1 - n)
      else
        assert i + 1 - n >= 0 ==> streak < i && !frames[i - streak - 1].free;
        assert forall k :: 0 <= k && k + n == i + 1 ==> !RunAt(frames, k, n);
        RunScan(frames, n, i + 1, streak + 1)
    else
      RunScan(frames, n, i + 1, 0)
  }

  /** Index of the lowest run of `n` free frames. */
  function FirstFitRun(frames: seq<Frame>, n: nat): (r: Option<nat>)
    requires 1 <= n
    ensures r.Some? ==> RunAt(frames, r.value, n) && forall k :: 0 <= k < r.value ==> !RunAt(frames, k, n)
    ensures r.None? ==> forall k :: 0 <= k <= |frames| ==> !RunAt(frames, k, n)
  {
    RunScan(frames, n, 0, 0)
  }

  // ---------------------------------------------------------------------
  // Intended allocation and release of a run

  /** Free frames carry no group size: the invariant of the intended run allocator. */
  predicate RunInv(frames: seq<Frame>) {
    && DistinctAddrs(frames)
    && forall i :: 0 <= i < |frames| && frames[i].free ==> frames[i].groupSize == 0
  }

  /** Frames `k .. k + n - 1` become taken; the first records the group size. */
  function ClaimRun(frames: seq<Frame>, k: nat, n: nat): (r: seq<Frame>)
    ensures SameAddrs(frames, r)
  {
    seq(|frames|, i requires 0 <= i < |frames| =>
      if k <= i < k + n then Frame(frames[i].paddr, false, if i == k then n else 0) else frames[i])
  }

  /** Frames `k .. k + g - 1` (those that exist) become vacant. */
  function VacateRun(frames: seq<Frame>, k: nat, g: nat): (r: seq<Frame>)
    ensures SameAddrs(frames, r)
  {
    seq(|frames|, i requires 0 <= i < |frames| =>
      if k <= i < k + g then Vacant(frames[i].paddr) else frames[i])
  }

  /** Intended `getppages(n)`: claim the first-fit run of `n` frames. */
  function AllocRun(ft: FrameTable, n: nat): (r: Alloc)
    requires 1 <= n
    ensures !ft.booted ==> r == Unavailable(StealMem)
    ensures ft.booted ==> (r.Allocated? <==> exists k :: 0 <= k <= |ft.frames| && RunAt(ft.frames, k, n))
    ensures r.Allocated? ==> && FirstFitRun(ft.frames, n).Some?
                             && var k := FirstFitRun(ft.frames, n).value;
                                && r.addr == ft.frames[k].paddr
                                && r.table == FrameTable(true, ClaimRun(ft.frames, k, n))
  {
    if !ft.booted then Unavailable(StealMem)
    else match FirstFitRun(ft.frames, n)
      case None => Unavailable(NoFreeFrame)
      case Some(k) => Allocated(ft.frames[k].paddr, FrameTable(true, ClaimRun(ft.frames, k, n)))
  }

  /** Intended release: find the frame at `pa` and vacate exactly the
      `groupSize` frames it leads. */
  function FreeRun(ft: FrameTable, pa: Word): (r: FrameTable)
    ensures r.booted == ft.booted && SameAddrs(ft.frames, r.frames)
    ensures !ft.booted ==> r == ft
    ensures (forall i :: 0 <= i < |ft.frames| ==> ft.frames[i].paddr != pa) ==> r == ft
    ensures forall k :: ft.booted && FirstAt(ft.frames, pa, k) ==>
              forall i :: 0 <= i < |ft.frames| ==>
                r.frames[i] == (if k <= i < k + ft.frames[k].groupSize then Vacant(ft.frames[i].paddr) else ft.frames[i])
  {
    if !ft.booted then ft
    else match FirstWithAddr(ft.frames, pa, 0)
      case None => ft
      case Some(k) => FrameTable(true, VacateRun(ft.frames, k, ft.frames[k].groupSize))
  }

  /** Allocating `n` contiguous frames and releasing by the returned address
      returns exactly those `n` frames and restores the table. */
  lemma AllocRunFreeRoundTrip(ft: FrameTable, n: nat)
    requires 1 <= n && RunInv(ft.frames)
    ensures AllocRun(ft, n).Allocated? ==> FreeRun(AllocRun(ft, n).table, AllocRun(ft, n).addr) == ft
  {
    var r := AllocRun(ft, n);
    if r.Allocated? {
      var k := FirstFitRun(ft.frames, n).value;
      var claimed := r.table.frames;
      assert claimed[k].paddr == r.addr && claimed[k].groupSize == n;
      var m := FirstWithAddr(claimed, r.addr, 0);
      assert m == Some(k);
      var back := VacateRun(claimed, k, n);
      forall i | 0 <= i < |ft.frames|
        ensures back[i] == ft.frames[i]
      {
        if k <= i < k + n {
          assert ft.frames[i].free;
        }
      }
      assert back == ft.frames;
    }
  }

  /** A run allocation takes exactly `n` frames out of the free pool. */
  lemma AllocRunTakesExactlyRun(ft: FrameTable, n: nat)
    requires 1 <= n
    ensures var r := AllocRun(ft, n);
            r.Allocated? ==>
              var k := FirstFitRun(ft.frames, n).value;
              && (forall i :: 0 <= i < |ft.frames| ==>
                    (r.table.frames[i].free <==> ft.frames[i].free && !(k <= i < k + n)))
              && FreeCount(r.table.frames) == FreeCount(ft.frames) - n
  {
    var r := AllocRun(ft, n);
    if r.Allocated? {
      var k := FirstFitRun(ft.frames, n).value;
      ClaimRunCount(ft.frames, k, n);
    }
  }

  lemma {:induction false} ClaimRunCount(frames: seq<Frame>, k: nat, n: nat)
    requires RunAt(frames, k, n)
    ensures FreeCount(ClaimRun(frames, k, n)) == FreeCount(frames) - n
    decreases n
  {
    if n == 0 {
      assert ClaimRun(frames, k, n) == frames;
    } else {
      ClaimRunCount(frames, k, n - 1);
      var before := ClaimRun(frames, k, n - 1);
      var after := ClaimRun(frames, k, n);
      var j := k + n - 1;
      assert before[j].free;
      FreeCountSet(before, j, after[j]);
      FreeCountFlags(after, before[j := after[j]]);
    }
  }

  /** The free count only looks at the free flags. */
  lemma {:induction false} FreeCountFlags(a: seq<Frame>, b: seq<Frame>)
    requires |a| == |b| && forall i :: 0 <= i < |a| ==> a[i].free == b[i].free
    ensures FreeCount(a) == FreeCount(b)
    decreases |a|
  {
    if |a| > 0 {
      FreeCountFlags(a[1..], b[1..]);
    }
  }

  /** Replacing a free frame by a taken one lowers the free count by one. */
  lemma {:induction false} FreeCountSet(frames: seq<Frame>, j: nat, f: Frame)
    requires j < |frames| && frames[j].free && !f.free
    ensures FreeCount(frames[j := f]) == FreeCount(frames) - 1
    decreases j
  {
    var after := frames[j := f];
    if j == 0 {
      assert after[1..] == frames[1..];
    } else {
      assert after[1..] == frames[1..][j - 1 := f];
      FreeCountSet(frames[1..], j - 1, f);
    }
  }
}

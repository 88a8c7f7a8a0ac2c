/** The software view of the hardware TLB: a fixed array of `NUM_TLB`
    (hi, lo) word pairs, the slot choice of the fault handler, and the
    flush performed on a context switch.
 */
module Tlb {
  import opened Machine
  import opened Wrappers

  /** One TLB slot: `hi` holds the virtual page, `lo` the frame and flags. */
  datatype TlbEntry = TlbEntry(hi: Word, lo: Word)

  /** Flag bits of the low word. */
  const TLBLO_DIRTY: int := 0x400
  const TLBLO_VALID: int := 0x200
  const TLBLO_INVALID: Word := 0

  /** `TLBHI_INVALID(i)`: a distinct kernel-segment page per slot, so that no
      two invalidated slots ever match the same address. */
  function TlbHiInvalid(i: nat): Word
    requires i < NUM_TLB
  {
    (0x80000 + i) * PAGE_SIZE
  }

  predicate IsValid(e: TlbEntry) {
    (e.lo / TLBLO_VALID) % 2 == 1
  }

  predicate IsDirty(e: TlbEntry) {
    (e.lo / TLBLO_DIRTY) % 2 == 1
  }

  /** Scan for the first slot whose low word lacks the valid bit. */
  function FirstInvalid(tlb: seq<TlbEntry>, from: nat): (r: Option<nat>)
    requires from <= |tlb|
    ensures r.Some? ==> from <= r.value < |tlb| && !IsValid(tlb[r.value])
                        && forall j :: from <= j < r.value ==> IsValid(tlb[j])
    ensures r.None? ==> forall j :: from <= j < |tlb| ==> IsValid(tlb[j])
    decreases |tlb| - from
  {
    if from == |tlb| then None
    else if !IsValid(tlb[from]) then Some(from)
    else FirstInvalid(tlb, from + 1)
  }

  /** The slot the fault handler writes: the lowest invalid slot, or, when
      every slot is valid, the one `tlb_random` picks (`victim`). */
  function ChosenSlot(tlb: seq<TlbEntry>, victim: nat): (r: nat)
    requires victim < |tlb|
    ensures r < |tlb|
    ensures (exists i :: 0 <= i < |tlb| && !IsValid(tlb[i])) ==>
              !IsValid(tlb[r]) && forall j :: 0 <= j < r ==> IsValid(tlb[j])
    ensures (forall i :: 0 <= i < |tlb| ==> IsValid(tlb[i])) ==> r == victim
  {
    match FirstInvalid(tlb, 0)
    case Some(i) => i
    case None => victim
  }

  /** Write `e` into the chosen slot. */
  function Install(tlb: seq<TlbEntry>, victim: nat, e: TlbEntry): (r: seq<TlbEntry>)
    requires victim < |tlb|
    ensures |r| == |tlb| && r[ChosenSlot(tlb, victim)] == e
    ensures forall j :: 0 <= j < |tlb| && j != ChosenSlot(tlb, victim) ==> r[j] == tlb[j]
  {
    tlb[ChosenSlot(tlb, victim) := e]
  }

  /** `as_activate`: when the current process has an address space, every
      slot is rewritten invalid; otherwise the TLB is left alone. */
  function Activate(hasSpace: bool, tlb: seq<TlbEntry>): (r: seq<TlbEntry>)
    requires |tlb| == NUM_TLB
    ensures |r| == NUM_TLB
    ensures !hasSpace ==> r == tlb
    ensures hasSpace ==> forall i :: 0 <= i < NUM_TLB ==> !IsValid(r[i]) && MIPS_KSEG0 <= r[i].hi
    ensures hasSpace ==> forall i, j :: 0 <= i < j < NUM_TLB ==> r[i].hi != r[j].hi
  {
    if !hasSpace then tlb
    else seq(NUM_TLB, i requires 0 <= i < NUM_TLB => TlbEntry(TlbHiInvalid(i), TLBLO_INVALID))
  }
}

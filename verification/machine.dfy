/** Constants of the MIPS target and 32-bit unsigned address arithmetic.

    `vaddr_t`, `paddr_t` and `size_t` are 32-bit unsigned words on this
    machine; `Word` models them, and `Wrap` makes every place where C
    unsigned arithmetic can wrap around explicit.
 */
module Machine {

  const WORD_MOD: int := 0x1_0000_0000

  /** A 32-bit unsigned machine word. */
  type Word = x: int | 0 <= x < WORD_MOD

  const PAGE_SIZE: int := 4096

  /** Base of the direct-mapped kernel segment; also the top of the user stack. */
  const MIPS_KSEG0: Word := 0x8000_0000
  const USERSTACK: Word := MIPS_KSEG0

  const NUM_TLB: nat := 64

  /** Pages of user stack every address space gets (48 KiB). */
  const STACK_PAGES: nat := 12
  const STACK_BASE: Word := USERSTACK - STACK_PAGES * PAGE_SIZE

  /** Fault kinds passed to the fault handler. */
  const VM_FAULT_READ: int := 0
  const VM_FAULT_WRITE: int := 1
  const VM_FAULT_READONLY: int := 2

  /** The error codes this core reports. */
  datatype Errno = EINVAL | EFAULT | EUNIMP

  /** Reduction modulo 2^32, as unsigned C arithmetic does. */
  function Wrap(x: int): (r: Word)
    ensures 0 <= x < WORD_MOD ==> r == x
    ensures (r - x) % WORD_MOD == 0
  {
    x % WORD_MOD
  }

  predicate PageAligned(a: int) {
    a % PAGE_SIZE == 0
  }

  /** `a & PAGE_FRAME`: the base of the page holding `a`. */
  function PageTrunc(a: Word): (r: Word)
    ensures PageAligned(r)
    ensures r <= a < r + PAGE_SIZE
  {
    a - a % PAGE_SIZE
  }

  /** Dividing `d * a + b` by `d` when `b` is a remainder below `d`. */
  lemma DivPlus(a: int, b: int, d: int)
    requires 0 < d && 0 <= b < d
    ensures (d * a + b) / d == a && (d * a + b) % d == b
  {
    var n := d * a + b;
    var q := n / d;
    var r := n % d;
    assert d * q + r == n;
    assert d * (q - a) == b - r;
    if q - a >= 1 {
      MulAtLeast(d, q - a);
      assert false;
    } else if q - a <= -1 {
      MulAtLeast(d, a - q);
      assert false;
    }
  }

  lemma MulAtLeast(d: int, k: int)
    requires 0 < d && 1 <= k
    ensures d * k >= d
  {
    assert d * k == d + d * (k - 1);
  }

  /** Two page-aligned addresses less than a page apart are equal. */
  lemma AlignedSamePage(x: int, y: int)
    requires PageAligned(x) && PageAligned(y) && x <= y < x + PAGE_SIZE
    ensures x == y
  {
    DivPlus(x / PAGE_SIZE, 0, PAGE_SIZE);
    DivPlus(y / PAGE_SIZE, 0, PAGE_SIZE);
    var d := y / PAGE_SIZE - x / PAGE_SIZE;
    assert y - x == PAGE_SIZE * d;
    if d >= 1 {
      MulAtLeast(PAGE_SIZE, d);
    } else if d <= -1 {
      MulAtLeast(PAGE_SIZE, -d);
    }
  }

  /** Whole pages added to an aligned address keep it aligned. */
  lemma AlignedPlusPages(x: int, i: int)
    requires PageAligned(x)
    ensures PageAligned(x + i * PAGE_SIZE)
  {
    assert x == PAGE_SIZE * (x / PAGE_SIZE);
    assert x + i * PAGE_SIZE == PAGE_SIZE * (x / PAGE_SIZE + i) + 0;
    DivPlus(x / PAGE_SIZE + i, 0, PAGE_SIZE);
  }

  /** `PADDR_TO_KVADDR`: the kernel-segment address of a physical address. */
  function PaddrToKvaddr(pa: Word): (r: Word)
    ensures pa < MIPS_KSEG0 ==> MIPS_KSEG0 <= r && r - MIPS_KSEG0 == pa
    ensures r % PAGE_SIZE == pa % PAGE_SIZE
  {
    Wrap(pa + MIPS_KSEG0)
  }

  /** `addr - MIPS_KSEG0`, the inverse translation free_kpages applies. */
  function KvaddrToPaddr(va: Word): Word {
    Wrap(va - MIPS_KSEG0)
  }

  lemma KvaddrRoundTrip(pa: Word)
    ensures KvaddrToPaddr(PaddrToKvaddr(pa)) == pa
  {
    var k := PaddrToKvaddr(pa);
    if pa < MIPS_KSEG0 {
      assert k == pa + MIPS_KSEG0;
    } else {
      assert k == pa + MIPS_KSEG0 - WORD_MOD;
      assert k - MIPS_KSEG0 == pa - WORD_MOD;
    }
  }
}

/** Option and outcome types used by the scans and operations of this model. */
module Wrappers {

  datatype Option<T> = None | Some(value: T)

  /** The status a C function reports: 0, or an error code. */
  datatype Outcome<E> = Pass | Fail(error: E)
}

/** Page-table entries and physical page contents shared by the address-space model and the
    swap path (`struct PTE` as kern/vm/addrspace.c and kern/arch/mips/vm/tpvm.c use it). */
module PageTable {
  import opened Common

  /** `struct PTE`. `virtual` holds, depending on the moment, the user address given at
      region definition, the kernel address of the backing frame (after SegmentMake), or
      the swap offset (after SwapOut); lookups never read it, they go by list position. */
  datatype Pte = Pte(
    virtual: nat,
    physical: nat,
    location: nat,
    valid: bool,
    isInMemory: bool,
    swapable: bool,
    shared: bool,
    readable: bool,
    writeable: bool,
    executable: bool,
    pid: int,
    useCount: nat)

  /** Contents of one physical page. */
  type Page = seq<bv8>

  const ZERO_PAGE: Page := seq(PAGE_SIZE, _ => 0 as bv8)

  /** Physical memory contents, indexed by physical frame address. */
  type Ram = nat -> Page

  /** One page written (bzero or memmove into a frame). */
  function WritePage(ram: Ram, p: nat, page: Page): (r: Ram)
    ensures r(p) == page
    ensures forall q :: q != p ==> r(q) == ram(q)
  {
    (q: nat) => if q == p then page else ram(q)
  }

  /** Physical address of a kernel (kseg0) address: `addr - MIPS_KSEG0` in 32 bits. */
  function PhysOf(kvaddr: nat): nat
  {
    Wrap32(kvaddr - MIPS_KSEG0)
  }

  /** The fields a PTE keeps when it is backed by a new frame or copied. */
  predicate SamePermissions(a: Pte, b: Pte)
  {
    && a.readable == b.readable
    && a.writeable == b.writeable
    && a.executable == b.executable
    && a.shared == b.shared
    && a.pid == b.pid
    && a.location == b.location
  }

  /** `orig` backed by the frame at kernel address `kvaddr`, as SegmentMake and
      SegmentMakeNoZero leave an entry: resident, valid, swapable, use count 1, `virtual`
      the frame's kernel address and `physical` its physical address; every other field
      (permissions, sharing, owner, location) is kept. */
  function Backed(orig: Pte, kvaddr: nat): (p: Pte)
    ensures SamePermissions(p, orig)
  {
    orig.(virtual := kvaddr, physical := PhysOf(kvaddr), isInMemory := true, valid := true,
          swapable := true, useCount := 1)
  }

  /** `p` is `orig` backed by the frame at `kvaddr`. */
  predicate BackedBy(p: Pte, orig: Pte, kvaddr: nat)
  {
    p == Backed(orig, kvaddr)
  }
}

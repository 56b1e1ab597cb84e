/** The swap-slot bitmap of kern/arch/mips/vm/tpvm.c and the effects of SwapOut and SwapIn on
    it and on a PTE. The swap file is an abstract map from byte offset to page contents; the
    transfers themselves (VOP_WRITE / VOP_READ) are single writes of that map or of RAM. */
module Swap {
  import opened Common
  import opened PageTable
  import opened Coremap

  /** `swap.IsUsed`: one byte per swap slot, non-zero while the slot holds a page. */
  type SwapMap = seq<bool>

  /** Contents of the swap file, by byte offset. */
  type Disk = nat -> Page

  /** `swap.Pages` is the number of RAM pages, and the managed RAM lies inside the 512 MB
      kseg0 maps, so a swap map never has more slots than this. */
  const MAX_SWAP_SLOTS: nat := KSEG0_SIZE / PAGE_SIZE

  /** The swap map vm_bootstrap leaves: one clear slot per RAM page. */
  function SwapBoot(pages: nat): (m: SwapMap)
    ensures |m| == pages
    ensures forall i :: 0 <= i < |m| ==> !m[i]
  {
    seq(pages, _ => false)
  }

  // ---------------------------------------------------------------- slot choice

  function FirstFreeSlotFrom(m: SwapMap, from: nat): (r: Option<nat>)
    requires from <= |m| && forall j :: 0 <= j < from ==> m[j]
    ensures r.Some? ==> r.value < |m| && !m[r.value] && forall j :: 0 <= j < r.value ==> m[j]
    ensures r.None? ==> forall j :: 0 <= j < |m| ==> m[j]
    decreases |m| - from
  {
    if from == |m| then None
    else if !m[from] then Some(from)
    else FirstFreeSlotFrom(m, from + 1)
  }

  /** Reference definition of the slot SwapOut takes: the lowest clear one, if any. */
  function FirstFreeSlot(m: SwapMap): (r: Option<nat>)
    ensures r.Some? ==> r.value < |m| && !m[r.value] && forall j :: 0 <= j < r.value ==> m[j]
    ensures r.None? ==> forall j :: 0 <= j < |m| ==> m[j]
  {
    FirstFreeSlotFrom(m, 0)
  }

  /** The slot scan of SwapOut: the first clear slot is set and returned; with every slot
      set nothing changes and no slot is returned. */
  method ClaimSlot(m: SwapMap) returns (slot: Option<nat>, m': SwapMap)
    ensures slot == FirstFreeSlot(m)
    ensures slot.None? ==> m' == m
    ensures slot.Some? ==> slot.value < |m| && m' == m[slot.value := true]
  {
    slot := None;
    m' := m;
    var i := 0;
    while i != |m|
      invariant 0 <= i <= |m|
      invariant forall j :: 0 <= j < i ==> m[j]
      decreases |m| - i
    {
      if !m[i] {
        slot := Some(i);
        m' := m[i := true];
        assert FirstFreeSlotFrom(m, i) == Some(i);
        SlotScanAgrees(m, 0, i);
        return;
      }
      i := i + 1;
    }
    SlotScanAgrees(m, 0, i);
  }

  /** Scanning from 0 gives the same answer as scanning from any point before which every
      slot is set. */
  lemma {:induction false} SlotScanAgrees(m: SwapMap, from: nat, i: nat)
    requires from <= i <= |m| && forall j :: 0 <= j < i ==> m[j]
    ensures FirstFreeSlotFrom(m, from) == FirstFreeSlotFrom(m, i)
    decreases i - from
  {
    if from < i {
      SlotScanAgrees(m, from + 1, i);
    }
  }

  // ---------------------------------------------------------------- SwapOut

  /** The swap file after one page is written at offset `pos`. */
  function WriteDisk(disk: Disk, pos: nat, page: Page): (r: Disk)
    ensures r(pos) == page
    ensures forall o :: o != pos ==> r(o) == disk(o)
  {
    (o: nat) => if o == pos then page else disk(o)
  }

  /** SwapOut up to (not including) its free_kpages call: the lowest clear slot is set, the
      page behind `pte.virtual` is written at byte offset slot * PAGE_SIZE, and the PTE becomes
      non-resident with that offset (truncated to the 32-bit vaddr_t) in `virtual`. There is
      no residency check. No clear slot is the KASSERT on `pos`, shown as None. */
  function SwapOutStage(m: SwapMap, disk: Disk, ram: Ram, pte: Pte): (r: Option<(Pte, SwapMap, Disk)>)
    ensures r.None? <==> FirstFreeSlot(m).None?
    ensures r.Some? ==> var s := FirstFreeSlot(m).value; var (p, m', disk') := r.value;
      && s < |m| && !m[s] && m' == m[s := true]
      && (forall j :: 0 <= j < s ==> m[j])
      && !p.isInMemory
      && p.virtual == Wrap32(s * PAGE_SIZE)
      && SamePermissions(p, pte) && p.physical == pte.physical && p.valid == pte.valid
      && p.swapable == pte.swapable && p.useCount == pte.useCount
      && disk'(s * PAGE_SIZE) == ram(PhysOf(pte.virtual))
      && (forall o :: o != s * PAGE_SIZE ==> disk'(o) == disk(o))
  {
    match FirstFreeSlot(m)
    case None => None
    case Some(s) =>
      var pos := s * PAGE_SIZE;
      Some((pte.(isInMemory := false, virtual := Wrap32(pos)), m[s := true], WriteDisk(disk, pos, ram(PhysOf(pte.virtual)))))
  }

  /** SwapOut: the staged effects, then free_kpages on the PTE's new `virtual` field, which
      is the swap offset and not the frame. For every swap map of realistic size that call
      trips the free_kpages KASSERT, so SwapOut never completes; it also halts when no slot
      is clear. */
  function SwapOut(pm: PhysicalMemory, m: SwapMap, disk: Disk, ram: Ram, pte: Pte)
    : (r: Result<(Pte, SwapMap, Disk, PhysicalMemory)>)
    requires Wf(pm)
    ensures FirstFreeSlot(m).None? ==> r.Panic?
    ensures |m| <= MAX_SWAP_SLOTS ==> r.Panic?
    ensures r.Ok? ==> Wf(r.value.3) && |r.value.1| == |m| && !r.value.0.isInMemory
  {
    match SwapOutStage(m, disk, ram, pte)
    case None => Panic
    case Some((p, m', disk')) =>
      SlotOffsetIsNoFrame(pm, m);
      match FreeSpec(pm, p.virtual)
      case Panic => Panic
      case Ok(pm') => Ok((p, m', disk', pm'))
  }

  /** A swap offset is never the kernel address of a managed frame: it lies below
      MIPS_KSEG0, and so does every offset of a swap map of realistic size. */
  lemma SlotOffsetIsNoFrame(pm: PhysicalMemory, m: SwapMap)
    requires Wf(pm)
    ensures FirstFreeSlot(m).Some? && |m| <= MAX_SWAP_SLOTS ==>
      FrameIndex(pm, Wrap32(FirstFreeSlot(m).value * PAGE_SIZE)) > pm.totalPageNumber
  {
    if FirstFreeSlot(m).Some? && |m| <= MAX_SWAP_SLOTS {
      var s := FirstFreeSlot(m).value;
      assert s * PAGE_SIZE < MIPS_KSEG0;
      LowAddressIsNoFrame(pm, Wrap32(s * PAGE_SIZE));
    }
  }

  // ---------------------------------------------------------------- SwapIn

  /** SwapIn: nothing for a resident PTE. Otherwise the page stored at offset `virtual` is
      read into the frame alloc_kpages(1) returned (`frame`), slot `virtual / PAGE_SIZE` is
      cleared, and the PTE becomes resident with `virtual` set to the frame, while its
      `physical` field keeps its old value. */
  function SwapIn(m: SwapMap, disk: Disk, ram: Ram, pte: Pte, frame: nat): (r: (Pte, SwapMap, Ram))
    requires pte.isInMemory || pte.virtual / PAGE_SIZE < |m|
    ensures pte.isInMemory ==> r == (pte, m, ram)
    ensures !pte.isInMemory ==> var (p, m', ram') := r;
      && p.isInMemory && p.virtual == frame
      && p.physical == pte.physical
      && SamePermissions(p, pte) && p.valid == pte.valid && p.swapable == pte.swapable
      && p.useCount == pte.useCount
      && |m'| == |m| && !m'[pte.virtual / PAGE_SIZE]
      && (forall j :: 0 <= j < |m| && j != pte.virtual / PAGE_SIZE ==> m'[j] == m[j])
      && ram'(PhysOf(frame)) == disk(pte.virtual)
      && (forall q :: q != PhysOf(frame) ==> ram'(q) == ram(q))
  {
    if pte.isInMemory then (pte, m, ram)
    else
      var pos := pte.virtual;
      var ram' := WritePage(ram, PhysOf(frame), disk(pos));
      (pte.(virtual := frame, isInMemory := true), m[pos / PAGE_SIZE := false], ram')
  }

  /** The round trip of the swap path: the staged SwapOut followed by SwapIn restores the
      bitmap exactly, makes the PTE resident again with the same permissions, and puts the
      page contents back in the new frame. `physical` still names the old frame. */
  lemma SwapOutThenInRestores(m: SwapMap, disk: Disk, ram: Ram, pte: Pte, frame: nat)
    requires |m| <= MAX_SWAP_SLOTS
    requires SwapOutStage(m, disk, ram, pte).Some?
    ensures var (p1, m1, disk1) := SwapOutStage(m, disk, ram, pte).value;
      p1.virtual / PAGE_SIZE < |m1| &&
      var (p2, m2, ram2) := SwapIn(m1, disk1, ram, p1, frame);
      && m2 == m
      && p2.isInMemory && p2.virtual == frame && SamePermissions(p2, pte)
      && p2.physical == pte.physical
      && ram2(PhysOf(frame)) == ram(PhysOf(pte.virtual))
  {
    var s := FirstFreeSlot(m).value;
    var (p1, m1, disk1) := SwapOutStage(m, disk, ram, pte).value;
    assert s * PAGE_SIZE < WORD;
    assert p1.virtual == s * PAGE_SIZE;
    assert p1.virtual / PAGE_SIZE == s;
    var (p2, m2, ram2) := SwapIn(m1, disk1, ram, p1, frame);
    assert m2 == m1[s := false];
    assert m2 == m;
  }
}

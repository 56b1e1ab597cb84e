/** Eviction and kernel page allocation of kern/arch/mips/vm/tpvm.c: SwapSegment,
    SwapSomePage and alloc_kpages / alloc_kpages_swapable over the whole VM state. The
    thread-to-process-to-address-space chain SwapSomePage follows from a frame's owner is
    the map `spaces`. */
module Kernel {
  import opened Common
  import opened PageTable
  import opened Coremap
  import opened Swap
  import opened AddrSpace

  /** The VM state: coremap, swap map, swap file, RAM contents, and the address space of
      the process each thread belongs to. */
  datatype Vm = Vm(pm: PhysicalMemory, swap: SwapMap, disk: Disk, ram: Ram, spaces: map<ThreadId, AddrSpace>)

  /** The owner of every swapable frame has a process with an address space: the chain of
      pointers SwapSomePage dereferences is intact. */
  predicate VictimsKnown(vm: Vm)
  {
    forall i :: 0 <= i < |vm.pm.units| && vm.pm.units[i].swapable ==>
      vm.pm.units[i].owner.Some? && vm.pm.units[i].owner.value in vm.spaces
  }

  /** The state vm_bootstrap leaves: a cleared coremap and a cleared swap map with one slot
      per RAM page; no process exists yet. */
  function VmBoot(total: nat, start: nat, pages: nat, disk: Disk, ram: Ram): (vm: Vm)
    requires 0 < start && start + total * PAGE_SIZE <= KSEG0_SIZE
    ensures Valid(vm.pm) && vm.pm.emptyPageNumber == vm.pm.totalPageNumber == total
    ensures forall i :: 0 <= i < |vm.pm.units| ==> vm.pm.units[i] == FREE_UNIT
    ensures |vm.swap| == pages && FirstFreeSlot(vm.swap) == (if pages == 0 then None else Some(0))
    ensures VictimsKnown(vm)
  {
    Vm(Boot(total, start), SwapBoot(pages), disk, ram, map[])
  }

  // ---------------------------------------------------------------- eviction

  /** SwapSegment: SwapOut on every PTE of the list, in order. */
  function SwapSegment(ptes: seq<Pte>, pm: PhysicalMemory, m: SwapMap, disk: Disk, ram: Ram)
    : (r: Result<(seq<Pte>, PhysicalMemory, SwapMap, Disk)>)
    requires Wf(pm)
    ensures |ptes| == 0 ==> r == Ok((ptes, pm, m, disk))
    ensures |ptes| > 0 && |m| <= MAX_SWAP_SLOTS ==> r.Panic?
    ensures r.Ok? ==> Wf(r.value.1) && |r.value.2| == |m| && |r.value.0| == |ptes|
    ensures r.Ok? ==> forall k :: 0 <= k < |ptes| ==> !r.value.0[k].isInMemory
    decreases |ptes|
  {
    if |ptes| == 0 then Ok((ptes, pm, m, disk))
    else
      match SwapOut(pm, m, disk, ram, ptes[0])
      case Panic => Panic
      case Ok((p, m1, disk1, pm1)) =>
        match SwapSegment(ptes[1..], pm1, m1, disk1, ram)
        case Panic => Panic
        case Ok((rest, pm2, m2, disk2)) => Ok(([p] + rest, pm2, m2, disk2))
  }

  /** The four SwapSegment calls of SwapSomePage: code, data, heap, stack. */
  function SwapSpace(sp: AddrSpace, pm: PhysicalMemory, m: SwapMap, disk: Disk, ram: Ram)
    : (r: Result<(AddrSpace, PhysicalMemory, SwapMap, Disk)>)
    requires Wf(pm)
    ensures AllPtes(sp) == [] ==> r == Ok((sp, pm, m, disk))
    ensures AllPtes(sp) != [] && |m| <= MAX_SWAP_SLOTS ==> r.Panic?
    ensures r.Ok? ==> Wf(r.value.1) && |r.value.2| == |m|
  {
    match SwapSegment(sp.code.ptes, pm, m, disk, ram)
    case Panic => Panic
    case Ok((c, pm1, m1, d1)) =>
      match SwapSegment(sp.data.ptes, pm1, m1, d1, ram)
      case Panic => Panic
      case Ok((d, pm2, m2, d2)) =>
        match SwapSegment(sp.heap.ptes, pm2, m2, d2, ram)
        case Panic => Panic
        case Ok((h, pm3, m3, d3)) =>
          match SwapSegment(sp.stack.ptes, pm3, m3, d3, ram)
          case Panic => Panic
          case Ok((s, pm4, m4, d4)) =>
            Ok((AddrSpace(sp.code.(ptes := c), sp.data.(ptes := d), sp.heap.(ptes := h), sp.stack.(ptes := s)),
                pm4, m4, d4))
  }

  function FirstSwapableFrom(u: seq<MemUnit>, from: nat): (r: Option<nat>)
    requires from <= |u| && forall j :: 0 <= j < from ==> !u[j].swapable
    ensures r.Some? ==> r.value < |u| && u[r.value].swapable && forall j :: 0 <= j < r.value ==> !u[j].swapable
    ensures r.None? ==> forall j :: 0 <= j < |u| ==> !u[j].swapable
    decreases |u| - from
  {
    if from == |u| then None
    else if u[from].swapable then Some(from)
    else FirstSwapableFrom(u, from + 1)
  }

  /** Reference definition of SwapSomePage's victim frame: the lowest swapable record. */
  function FirstSwapable(u: seq<MemUnit>): (r: Option<nat>)
    ensures r.Some? ==> r.value < |u| && u[r.value].swapable && forall j :: 0 <= j < r.value ==> !u[j].swapable
    ensures r.None? ==> forall j :: 0 <= j < |u| ==> !u[j].swapable
  {
    FirstSwapableFrom(u, 0)
  }

  /** SwapSomePage: KASSERT(SwapableNumber > 0) on the 32-bit counter, then the address
      space owning the lowest swapable frame is swapped out segment by segment. With no
      swapable record the scan ends without effect. */
  function SwapSomePage(vm: Vm): (r: Result<Vm>)
    requires Wf(vm.pm) && VictimsKnown(vm)
    ensures Wrap32(vm.pm.swapableNumber) == 0 ==> r.Panic?
    ensures |vm.swap| <= MAX_SWAP_SLOTS ==>
      (r.Ok? <==> Wrap32(vm.pm.swapableNumber) != 0 &&
                  (FirstSwapable(vm.pm.units).None? ||
                   AllPtes(vm.spaces[vm.pm.units[FirstSwapable(vm.pm.units).value].owner.value]) == []))
    ensures |vm.swap| <= MAX_SWAP_SLOTS && r.Ok? ==> r.value == vm
    ensures r.Ok? ==> Wf(r.value.pm)
  {
    if Wrap32(vm.pm.swapableNumber) == 0 then Panic
    else
      match FirstSwapable(vm.pm.units)
      case None => Ok(vm)
      case Some(i) =>
        var owner := vm.pm.units[i].owner.value;
        match SwapSpace(vm.spaces[owner], vm.pm, vm.swap, vm.disk, vm.ram)
        case Panic => Panic
        case Ok((sp', pm', m', disk')) =>
          assert AllPtes(vm.spaces[owner]) == [] ==> vm.spaces[owner := sp'] == vm.spaces;
          Ok(vm.(pm := pm', swap := m', disk := disk', spaces := vm.spaces[owner := sp']))
  }

  /** Under the coremap invariant the counter check of SwapSomePage fails exactly when no
      frame is swapable. */
  lemma SwapableCounterMatches(pm: PhysicalMemory)
    requires Valid(pm)
    ensures Wrap32(pm.swapableNumber) == 0 <==> FirstSwapable(pm.units).None?
  {
    if FirstSwapable(pm.units).None? {
      CountNone(pm.units, IsSwapable);
    } else {
      var i := FirstSwapable(pm.units).value;
      CountSplit3(pm.units, i, i + 1, IsSwapable);
      assert pm.units[i..i + 1] == [pm.units[i]];
      assert Count(pm.units, IsSwapable) <= pm.totalPageNumber < WORD;
    }
  }

  // ---------------------------------------------------------------- as_destroy

  /** free_kpages on each address in turn; the first KASSERT failure halts. */
  function FreeAll(pm: PhysicalMemory, addrs: seq<nat>): (r: Result<PhysicalMemory>)
    requires Wf(pm)
    ensures r.Ok? ==> Wf(r.value)
    ensures (exists j :: 0 <= j < |addrs| && addrs[j] < MIPS_KSEG0) ==> r.Panic?
    decreases |addrs|
  {
    if |addrs| == 0 then Ok(pm)
    else
      LowAddressIsNoFrame(pm, addrs[0]);
      match FreeSpec(pm, addrs[0])
      case Panic => Panic
      case Ok(pm1) =>
        var r := FreeAll(pm1, addrs[1..]);
        assert forall j :: 1 <= j < |addrs| ==> addrs[j] == addrs[1..][j - 1];
        r
  }

  /** as_destroy on the coremap: every PTE's `virtual` field goes to free_kpages, in code,
      data, heap, stack order. A PTE that is not backed by a kernel frame, one swapped out
      (its `virtual` is a swap offset) or one as_define_region created and nothing backed
      yet (its `virtual` is a user address), makes the call halt. */
  function DestroySpace(pm: PhysicalMemory, sp: AddrSpace): (r: Result<PhysicalMemory>)
    requires Wf(pm)
    ensures r.Ok? ==> Wf(r.value)
    ensures (exists j :: 0 <= j < |AllPtes(sp)| && AllPtes(sp)[j].virtual < MIPS_KSEG0) ==> r.Panic?
  {
    var freed := AsDestroy(sp);
    assert forall j :: 0 <= j < |freed| ==> freed[j] == AllPtes(sp)[j].virtual;
    FreeAll(pm, freed)
  }

  /** The success path of the free_kpages loop of as_destroy: freeing the addresses of
      distinct single-frame runs succeeds, keeps the coremap invariant, returns one frame
      per address to the empty count, clears exactly those records and keeps every other. */
  lemma {:induction false} FreeAllFrames(pm: PhysicalMemory, addrs: seq<nat>, idxs: seq<nat>)
    requires Valid(pm) && |addrs| == |idxs|
    requires forall j :: 0 <= j < |idxs| ==>
      idxs[j] < |pm.units| && SingleFrame(pm.units, idxs[j]) && addrs[j] == FrameAddr(pm, idxs[j])
    requires forall j, k :: 0 <= j < k < |idxs| ==> idxs[j] != idxs[k]
    ensures FreeAll(pm, addrs).Ok?
    ensures var pm' := FreeAll(pm, addrs).value;
      && Valid(pm') && |pm'.units| == |pm.units|
      && pm'.totalPageNumber == pm.totalPageNumber && pm'.startPointer == pm.startPointer
      && pm'.emptyPageNumber == pm.emptyPageNumber + |idxs|
      && (forall j :: 0 <= j < |idxs| ==> pm'.units[idxs[j]] == FREE_UNIT)
      && (forall x :: 0 <= x < |pm.units| && x !in idxs ==> pm'.units[x] == pm.units[x])
    decreases |addrs|
  {
    if |addrs| > 0 {
      var i := idxs[0];
      FreeOneFrame(pm, i);
      var pm1 := Release(pm, i, i);
      RestStaySingle(pm, addrs, idxs);
      FreeAllFrames(pm1, addrs[1..], idxs[1..]);
      var pm' := FreeAll(pm1, addrs[1..]).value;
      assert FreeAll(pm, addrs) == Ok(pm');
      forall j | 1 <= j < |idxs|
        ensures idxs[j] < |pm'.units| && pm'.units[idxs[j]] == FREE_UNIT
      {
        assert idxs[j] == idxs[1..][j - 1];
      }
      FreeAllCombine(pm.units, pm1.units, pm'.units, idxs);
    }
  }

  /** free_kpages on the address of a single-frame run releases just that frame and keeps
      the coremap invariant. */
  lemma FreeOneFrame(pm: PhysicalMemory, i: nat)
    requires Valid(pm) && i < |pm.units| && SingleFrame(pm.units, i)
    ensures FreeSpec(pm, FrameAddr(pm, i)) == Ok(Release(pm, i, i))
    ensures Valid(Release(pm, i, i))
  {
    FrameIndexOfFrameAddr(pm, i);
    ReleaseRunPreservesValid(pm, i);
  }

  /** After the first frame is freed, the remaining addresses still name distinct
      single-frame runs of the new coremap. */
  lemma RestStaySingle(pm: PhysicalMemory, addrs: seq<nat>, idxs: seq<nat>)
    requires Valid(pm) && |addrs| == |idxs| > 0
    requires forall j :: 0 <= j < |idxs| ==>
      idxs[j] < |pm.units| && SingleFrame(pm.units, idxs[j]) && addrs[j] == FrameAddr(pm, idxs[j])
    requires forall j, k :: 0 <= j < k < |idxs| ==> idxs[j] != idxs[k]
    ensures var pm1 := Release(pm, idxs[0], idxs[0]);
      forall j :: 0 <= j < |idxs[1..]| ==>
        idxs[1..][j] < |pm1.units| && SingleFrame(pm1.units, idxs[1..][j])
        && addrs[1..][j] == FrameAddr(pm1, idxs[1..][j])
  {
    var pm1 := Release(pm, idxs[0], idxs[0]);
    forall j | 0 <= j < |idxs[1..]|
      ensures idxs[1..][j] < |pm1.units| && SingleFrame(pm1.units, idxs[1..][j])
      ensures addrs[1..][j] == FrameAddr(pm1, idxs[1..][j])
    {
      SingleFrameKept(pm, idxs[0], idxs[j + 1]);
    }
  }

  /** Releasing one single-frame run leaves every other single-frame run one. */
  lemma SingleFrameKept(pm: PhysicalMemory, i: nat, x: nat)
    requires Valid(pm) && i < |pm.units| && SingleFrame(pm.units, i)
    requires x < |pm.units| && SingleFrame(pm.units, x) && x != i
    ensures SingleFrame(Release(pm, i, i).units, x)
  {
    var v := Release(pm, i, i).units;
    assert v[x] == pm.units[x];
    if x > 0 && x - 1 != i {
      assert v[x - 1] == pm.units[x - 1];
    }
  }

  /** The first free, then the rest: the per-frame facts of the whole sequence follow from
      those of the first frame and of the remaining ones. */
  lemma FreeAllCombine(u: seq<MemUnit>, u1: seq<MemUnit>, u2: seq<MemUnit>, idxs: seq<nat>)
    requires |u| == |u1| == |u2| && |idxs| > 0 && idxs[0] < |u|
    requires forall j, k :: 0 <= j < k < |idxs| ==> idxs[j] != idxs[k]
    requires u1[idxs[0]] == FREE_UNIT
    requires forall x :: 0 <= x < |u| && x != idxs[0] ==> u1[x] == u[x]
    requires forall j :: 1 <= j < |idxs| ==> idxs[j] < |u2| && u2[idxs[j]] == FREE_UNIT
    requires forall x :: 0 <= x < |u| && x !in idxs[1..] ==> u2[x] == u1[x]
    ensures forall j :: 0 <= j < |idxs| ==> idxs[j] < |u2| && u2[idxs[j]] == FREE_UNIT
    ensures forall x :: 0 <= x < |u| && x !in idxs ==> u2[x] == u[x]
  {
    assert idxs[0] !in idxs[1..];
    forall x | 0 <= x < |u| && x !in idxs
      ensures u2[x] == u[x]
    {
      assert x !in idxs[1..];
    }
  }

  /** A successful as_destroy: when every PTE's `virtual` is the address of its own
      single-frame run (as alloc_kpages(1) backed it), the destroy never halts, keeps the
      coremap invariant, and releases exactly those frames, one empty frame per PTE. */
  lemma DestroyFreesFrames(pm: PhysicalMemory, sp: AddrSpace, idxs: seq<nat>)
    requires Valid(pm) && |idxs| == |AllPtes(sp)|
    requires forall j :: 0 <= j < |idxs| ==>
      idxs[j] < |pm.units| && SingleFrame(pm.units, idxs[j]) && AllPtes(sp)[j].virtual == FrameAddr(pm, idxs[j])
    requires forall j, k :: 0 <= j < k < |idxs| ==> idxs[j] != idxs[k]
    ensures DestroySpace(pm, sp).Ok?
    ensures var pm' := DestroySpace(pm, sp).value;
      && Valid(pm') && |pm'.units| == |pm.units|
      && pm'.emptyPageNumber == pm.emptyPageNumber + |AllPtes(sp)|
      && (forall j :: 0 <= j < |idxs| ==> pm'.units[idxs[j]] == FREE_UNIT)
      && (forall x :: 0 <= x < |pm.units| && x !in idxs ==> pm'.units[x] == pm.units[x])
  {
    FreeAllFrames(pm, AsDestroy(sp), idxs);
  }

  /** as_prepare_load followed by as_destroy on a freshly defined space (no heap or stack
      PTEs): the frames the loader's PTEs were backed with are exactly the ones as_destroy
      hands back, and when they are distinct single-frame runs they all return to the
      coremap with the invariant kept. */
  lemma PrepareLoadThenDestroy(pm: PhysicalMemory, sp: AddrSpace, frames: seq<nat>, ram: Ram, idxs: seq<nat>)
    requires Valid(pm) && sp.heap.ptes == [] && sp.stack.ptes == []
    requires |frames| == |sp.code.ptes| + |sp.data.ptes| && |idxs| == |frames|
    requires forall j :: 0 <= j < |idxs| ==>
      idxs[j] < |pm.units| && SingleFrame(pm.units, idxs[j]) && frames[j] == FrameAddr(pm, idxs[j])
    requires forall j, k :: 0 <= j < k < |idxs| ==> idxs[j] != idxs[k]
    ensures var sp' := AsPrepareLoad(sp, frames, ram).0;
      && AsDestroy(sp') == frames
      && DestroySpace(pm, sp').Ok?
      && Valid(DestroySpace(pm, sp').value)
      && DestroySpace(pm, sp').value.emptyPageNumber == pm.emptyPageNumber + |frames|
  {
    var sp' := AsPrepareLoad(sp, frames, ram).0;
    PrepareLoadThenDestroyFrees(sp, frames, ram);
    assert AsDestroy(sp') == frames;
    DestroyFreesFrames(pm, sp', idxs);
  }

  /** A space with a PTE SwapOut has moved to the swap file cannot be destroyed: SwapOut
      left the slot offset in `virtual`, and as_destroy hands it to free_kpages. */
  lemma DestroyAfterSwapOutHalts(pm: PhysicalMemory, sp: AddrSpace, m: SwapMap, disk: Disk, ram: Ram,
                                 pte: Pte, j: nat)
    requires Wf(pm) && |m| <= MAX_SWAP_SLOTS && j < |AllPtes(sp)|
    requires SwapOutStage(m, disk, ram, pte).Some? && AllPtes(sp)[j] == SwapOutStage(m, disk, ram, pte).value.0
    ensures DestroySpace(pm, sp).Panic?
  {
    var s := FirstFreeSlot(m).value;
    assert s * PAGE_SIZE < MIPS_KSEG0;
    assert AllPtes(sp)[j].virtual < MIPS_KSEG0;
  }

  // ---------------------------------------------------------------- alloc_kpages

  /** alloc_kpages (swapable == false) and alloc_kpages_swapable (swapable == true): a
      first-fit claim; when it fails, one SwapSomePage pass and one retry whose failure is a
      KASSERT; then the run is tagged and its kernel address returned. */
  method AllocKPages(vm: Vm, npages: nat, caller: ThreadId, swapable: bool) returns (r: Result<(Vm, nat)>)
    requires Wf(vm.pm) && npages >= 1 && VictimsKnown(vm)
    ensures r.Ok? ==> Wf(r.value.0.pm) && r.value.1 < WORD
    ensures Valid(vm.pm) && |vm.swap| <= MAX_SWAP_SLOTS ==>
      (r.Ok? <==> FirstFit(vm.pm.units, npages).Some?)
    ensures Valid(vm.pm) && |vm.swap| <= MAX_SWAP_SLOTS && r.Ok? ==>
      var i := FirstFit(vm.pm.units, npages).value;
      && r.value.0 == vm.(pm := Tag(Claim(vm.pm, i, npages, caller), i, npages, swapable))
      && r.value.1 == FrameAddr(vm.pm, i)
      && Valid(r.value.0.pm)
      && FreeSpec(r.value.0.pm, r.value.1) == Ok(vm.pm)
  {
    var idx, pa, pm1 := FindEmptyPages(vm.pm, npages, caller);
    if Valid(vm.pm) && FirstFit(vm.pm.units, npages).Some? {
      EmptyCountBoundsRuns(vm.pm, npages, FirstFit(vm.pm.units, npages).value);
    }
    var cur := vm;
    if pa == 0 {
      var swapped := SwapSomePage(vm);
      if swapped.Panic? {
        return Panic;
      }
      cur := swapped.value;
      idx, pa, pm1 := FindEmptyPages(cur.pm, npages, caller);
      if pa == 0 {
        return Panic;
      }
    }
    assert idx != -1;
    var i := idx as nat;
    var tagged := Tag(pm1, i, npages, swapable);
    FrameIndexOfFrameAddr(cur.pm, i);
    if Valid(vm.pm) && |vm.swap| <= MAX_SWAP_SLOTS {
      TagClaimPreservesValid(vm.pm, i, npages, caller, swapable);
      ClaimThenFreeRestores(vm.pm, i, npages, caller, swapable);
    }
    r := Ok((cur.(pm := tagged), MIPS_KSEG0 + pa));
  }
}

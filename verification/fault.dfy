/** vm_fault of kern/arch/mips/vm/tpvm.c: the fault address is page-aligned; addresses below
    `lastaddr` (the first physical address the kernel did not steal at boot) get an
    identity mapping; any other address is resolved through as_pagefault of the current
    address space and mapped to the PTE's `physical` frame. A full TLB is EFAULT. */
module Fault {
  import opened Common
  import opened PageTable
  import opened AddrSpace
  import opened Tlb

  /** What vm_fault leaves behind: its error (None for 0), the TLB, the current address
      space (as_pagefault may grow its stack) and RAM (the new stack page is zeroed). */
  datatype FaultResult = FaultResult(err: Option<Errno>, tlb: TlbState, space: Option<AddrSpace>, ram: Ram)

  /** The TLB after the mapping (ehi, elo) is offered to WriteToTlb, and the fault result
      code: the first invalid slot after 0 takes it, and a full TLB is EFAULT. */
  predicate Installed(t: TlbState, t': TlbState, err: Option<Errno>, ehi: nat, elo: nat)
    requires |t| == NUM_TLB
  {
    && (err.None? <==> FirstInvalid(t).Some?)
    && (err.None? ==> t' == t[FirstInvalid(t).value := TlbEntry(ehi, elo)])
    && (err.Some? ==> err == Some(EFAULT) && t' == t)
  }

  /** vm_fault. The fault type is ignored, as in the source. `frames` are the frames a
      stack growth inside as_pagefault would receive. */
  method VmFault(faultaddress: nat, lastaddr: nat, space: Option<AddrSpace>, tlb: TlbState,
                 pid: int, frames: seq<nat>, ram: Ram) returns (r: Result<FaultResult>)
    requires faultaddress < WORD && |tlb| == NUM_TLB
    requires space.Some? ==> SpaceWf(space.value) && |frames| == |space.value.stack.ptes| + 1
    ensures r.Ok? ==> |r.value.tlb| == NUM_TLB && r.value.tlb[0] == tlb[0]
    ensures PageFrame(faultaddress) < lastaddr ==>
      && r.Ok? && r.value.space == space && r.value.ram == ram
      && Installed(tlb, r.value.tlb, r.value.err, PageFrame(faultaddress), ValidLo(PageFrame(faultaddress)))
    ensures PageFrame(faultaddress) >= lastaddr && space.None? ==>
      r == Ok(FaultResult(Some(EFAULT), tlb, None, ram))
    ensures PageFrame(faultaddress) >= lastaddr && space.Some? ==>
      var pf := AsPagefault(space.value, PageFrame(faultaddress), pid, frames, ram);
      && (r.Panic? <==> pf.Panic?)
      && (r.Ok? ==>
            var (sp', ram', name, k) := pf.value;
            && r.value.space == Some(sp') && r.value.ram == ram'
            && Installed(tlb, r.value.tlb, r.value.err, PageFrame(faultaddress),
                         ValidLo(Seg(sp', name).ptes[k].physical)))
  {
    var fa := PageFrame(faultaddress);
    if fa < lastaddr {
      var rc, t' := WriteToTlb(tlb, fa, ValidLo(fa));
      if rc == 0 {
        return Ok(FaultResult(None, t', space, ram));
      }
      return Ok(FaultResult(Some(EFAULT), t', space, ram));
    }
    if space.None? {
      return Ok(FaultResult(Some(EFAULT), tlb, None, ram));
    }
    var pf := AsPagefault(space.value, fa, pid, frames, ram);
    if pf.Panic? {
      return Panic;
    }
    var (sp', ram', name, k) := pf.value;
    var paddr := Seg(sp', name).ptes[k].physical;
    var rc, t' := WriteToTlb(tlb, fa, ValidLo(paddr));
    if rc == 0 {
      return Ok(FaultResult(None, t', Some(sp'), ram'));
    }
    return Ok(FaultResult(Some(EFAULT), t', Some(sp'), ram'));
  }
}

/** The physical-frame table ("coremap") of kern/arch/mips/vm/tpvm.c: one record per managed
    frame, the empty and swapable counters, the first-fit run search of Find_EmptyPages and
    the run walk of free_kpages. Each operation is one atomic step under memalloc_lock. */
module Coremap {
  import opened Common

  /** Identity of a kernel thread (the `mu_thread` pointer). */
  type ThreadId = nat

  /** One `struct memunit`: owner, and the used / next-in-run / swapable bits. */
  datatype MemUnit = MemUnit(owner: Option<ThreadId>, used: bool, next: bool, swapable: bool)

  /** A record after bzero: no owner and every bit clear. */
  const FREE_UNIT: MemUnit := MemUnit(None, false, false, false)

  /** `struct PhysicalMemory`. The counters are uint32_t in the source; `Valid` keeps them
      inside [0, totalPageNumber], so they never wrap in a reachable state. */
  datatype PhysicalMemory = PhysicalMemory(
    swapableNumber: int,
    emptyPageNumber: int,
    totalPageNumber: nat,
    startPointer: nat,
    units: seq<MemUnit>)

  /** The shape every operation relies on: one record per frame, and the managed region
      inside the part of physical memory kseg0 maps (so every address fits in 32 bits). */
  predicate Wf(pm: PhysicalMemory)
  {
    && |pm.units| == pm.totalPageNumber
    && 0 < pm.startPointer
    && pm.startPointer + pm.totalPageNumber * PAGE_SIZE <= KSEG0_SIZE
  }

  predicate IsUsed(u: MemUnit) { u.used }
  predicate IsSwapable(u: MemUnit) { u.swapable }

  /** Counting over a sequence split into prefix, middle and suffix. */
  lemma CountSplit3(s: seq<MemUnit>, i: nat, j: nat, f: MemUnit -> bool)
    requires i <= j <= |s|
    ensures Count(s, f) == Count(s[..i], f) + Count(s[i..j], f) + Count(s[j..], f)
  {
    assert s == s[..i] + s[i..j] + s[j..];
    CountConcat(s[..i] + s[i..j], s[j..], f);
    CountConcat(s[..i], s[i..j], f);
  }

  /** Two tables that agree outside the window i .. j-1 differ in count only by the window. */
  lemma CountWindow(u: seq<MemUnit>, v: seq<MemUnit>, i: nat, j: nat, f: MemUnit -> bool)
    requires |u| == |v| && i <= j <= |u|
    requires forall x :: 0 <= x < |u| && !(i <= x < j) ==> u[x] == v[x]
    ensures Count(v, f) == Count(u, f) - Count(u[i..j], f) + Count(v[i..j], f)
  {
    CountSplit3(u, i, j, f);
    CountSplit3(v, i, j, f);
    assert u[..i] == v[..i];
    assert u[j..] == v[j..];
  }

  /** The same when `f` is constant on the window in each table: the count moves by the
      window's length once for each side where `f` holds. */
  lemma WindowCount(u: seq<MemUnit>, v: seq<MemUnit>, i: nat, j: nat, f: MemUnit -> bool, cu: bool, cv: bool)
    requires |u| == |v| && i <= j <= |u|
    requires forall x :: 0 <= x < |u| && !(i <= x < j) ==> u[x] == v[x]
    requires forall x :: i <= x < j ==> f(u[x]) == cu
    requires forall x :: i <= x < j ==> f(v[x]) == cv
    ensures Count(v, f) == Count(u, f) - (if cu then j - i else 0) + (if cv then j - i else 0)
  {
    CountWindow(u, v, i, j, f);
    CountConst(u, i, j, f, cu);
    CountConst(v, i, j, f, cv);
  }

  /** A window on which `f` is constant counts all or none of its records. */
  lemma {:induction false} CountConst(s: seq<MemUnit>, lo: nat, hi: nat, f: MemUnit -> bool, c: bool)
    requires lo <= hi <= |s|
    requires forall x :: lo <= x < hi ==> f(s[x]) == c
    ensures Count(s[lo..hi], f) == if c then hi - lo else 0
    decreases hi - lo
  {
    if lo < hi {
      assert s[lo..hi][1..] == s[lo + 1..hi];
      CountConst(s, lo + 1, hi, f, c);
    }
  }

  /** A free record is all-zero, as bzero and the boot memset leave it. */
  predicate FreeIsClear(u: seq<MemUnit>)
  {
    forall i :: 0 <= i < |u| && !u[i].used ==> u[i] == FREE_UNIT
  }

  /** A `next` bit always points into the same run: the following frame exists and is used. */
  predicate ChainsClosed(u: seq<MemUnit>)
  {
    forall i :: 0 <= i < |u| && u[i].next ==> i + 1 < |u| && u[i + 1].used
  }

  /** The coremap invariant: conservation of frames (`Empty + used == Total`), the swapable
      counter matches the swapable records, free records are clear and runs are closed. */
  predicate Valid(pm: PhysicalMemory)
  {
    && Wf(pm)
    && pm.emptyPageNumber + Count(pm.units, IsUsed) == pm.totalPageNumber
    && pm.swapableNumber == Count(pm.units, IsSwapable)
    && FreeIsClear(pm.units)
    && ChainsClosed(pm.units)
  }

  /** The coremap as vm_bootstrap leaves it: every record cleared by memset, Empty == Total. */
  function Boot(total: nat, start: nat): (pm: PhysicalMemory)
    requires 0 < start && start + total * PAGE_SIZE <= KSEG0_SIZE
    ensures Valid(pm)
    ensures pm.emptyPageNumber == pm.totalPageNumber == total
    ensures pm.swapableNumber == 0
    ensures forall i :: 0 <= i < |pm.units| ==> pm.units[i] == FREE_UNIT
  {
    var units := seq(total, _ => FREE_UNIT);
    CountNone(units, IsUsed);
    CountNone(units, IsSwapable);
    PhysicalMemory(0, total, total, start, units)
  }

  /** coremap_used_bytes: the bytes held by allocated frames. */
  function CoremapUsedBytes(pm: PhysicalMemory): (r: int)
    requires Valid(pm)
    ensures r == Count(pm.units, IsUsed) * PAGE_SIZE
    ensures 0 <= r < WORD
  {
    (pm.totalPageNumber - pm.emptyPageNumber) * PAGE_SIZE
  }

  // ---------------------------------------------------------------- allocation

  /** Frames i .. i+n-1 exist and are all unused. */
  predicate FreeRunAt(u: seq<MemUnit>, i: nat, n: nat)
  {
    i + n <= |u| && forall j :: i <= j < i + n ==> !u[j].used
  }

  /** i is the lowest start of a run of n unused frames. */
  predicate IsFirstFit(u: seq<MemUnit>, i: nat, n: nat)
  {
    FreeRunAt(u, i, n) && forall k :: 0 <= k < i ==> !FreeRunAt(u, k, n)
  }

  /** Reference definition of first fit: the lowest start at or after `from`, if any. */
  function FirstFitFrom(u: seq<MemUnit>, n: nat, from: nat): (r: Option<nat>)
    requires forall k :: 0 <= k < from ==> !FreeRunAt(u, k, n)
    ensures r.Some? ==> IsFirstFit(u, r.value, n)
    ensures r.None? ==> forall k :: 0 <= k ==> !FreeRunAt(u, k, n)
    decreases |u| - from
  {
    if from + n > |u| then None
    else if FreeRunAt(u, from, n) then Some(from)
    else FirstFitFrom(u, n, from + 1)
  }

  function FirstFit(u: seq<MemUnit>, n: nat): (r: Option<nat>)
    ensures r.Some? ==> IsFirstFit(u, r.value, n)
    ensures r.None? ==> forall k :: 0 <= k ==> !FreeRunAt(u, k, n)
  {
    FirstFitFrom(u, n, 0)
  }

  /** The first fit is unique. */
  lemma FirstFitUnique(u: seq<MemUnit>, n: nat, i: nat, j: nat)
    requires IsFirstFit(u, i, n) && IsFirstFit(u, j, n)
    ensures i == j
  {
  }

  /** A stamped record of a run: owned by the caller, used, `next` on all but the last. */
  function Stamp(old_: MemUnit, caller: ThreadId, notLast: bool): MemUnit
  {
    old_.(owner := Some(caller), used := true, next := notLast)
  }

  /** The coremap after Find_EmptyPages claims frames i .. i+n-1 for `caller`. */
  function Claim(pm: PhysicalMemory, i: nat, n: nat, caller: ThreadId): (r: PhysicalMemory)
    requires Wf(pm) && n >= 1 && i + n <= pm.totalPageNumber
    ensures Wf(r) && |r.units| == |pm.units|
    ensures r.emptyPageNumber == pm.emptyPageNumber - n
    ensures r.swapableNumber == pm.swapableNumber && r.startPointer == pm.startPointer
    ensures forall j :: i <= j < i + n ==>
      r.units[j].used && r.units[j].owner == Some(caller) && r.units[j].swapable == pm.units[j].swapable
    ensures forall j :: i <= j < i + n - 1 ==> r.units[j].next
    ensures !r.units[i + n - 1].next
    ensures forall j :: 0 <= j < |pm.units| && !(i <= j < i + n) ==> r.units[j] == pm.units[j]
  {
    var u := pm.units;
    var units := seq(|u|, j requires 0 <= j < |u| =>
      if i <= j < i + n then Stamp(u[j], caller, j < i + n - 1) else u[j]);
    pm.(emptyPageNumber := pm.emptyPageNumber - n, units := units)
  }

  /** Find_EmptyPages: first-fit search for n contiguous free frames. On success the run is
      stamped for `caller`, `EmptyPageNumber` drops by n and the frame's physical address is
      returned; otherwise idx is -1, the address 0 and nothing changes. */
  method FindEmptyPages(pm: PhysicalMemory, npages: nat, caller: ThreadId)
    returns (idx: int, addr: nat, pm': PhysicalMemory)
    requires Wf(pm)
    requires npages >= 1
    ensures pm.emptyPageNumber < npages ==> idx == -1
    ensures idx == -1 ==> addr == 0 && pm' == pm
    ensures idx == -1 && pm.emptyPageNumber >= npages ==> FirstFit(pm.units, npages).None?
    ensures idx == -1 || 0 <= idx
    ensures idx != -1 ==>
      && 0 <= idx
      && pm.emptyPageNumber >= npages
      && FirstFit(pm.units, npages) == Some(idx as nat)
      && addr == pm.startPointer + idx * PAGE_SIZE
      && pm' == Claim(pm, idx as nat, npages, caller)
  {
    idx := -1;
    addr := 0;
    pm' := pm;
    if pm.emptyPageNumber < npages {
      return;
    }
    var u := pm.units;
    var i: nat := 0;
    while i + npages <= pm.totalPageNumber
      invariant forall k :: 0 <= k < i ==> !FreeRunAt(u, k, npages)
      decreases pm.totalPageNumber - i
    {
      var found := true;
      var j := i;
      while j != i + npages
        invariant i <= j <= i + npages
        invariant forall m :: i <= m < j ==> !u[m].used
        decreases i + npages - j
      {
        if u[j].used {
          found := false;
          break;
        }
        j := j + 1;
      }
      if found {
        assert FreeRunAt(u, i, npages);
        FirstFitIsUnique(u, npages, i);
        idx := i;
        addr := pm.startPointer + i * PAGE_SIZE;
        var units := u;
        var m := i;
        while m != i + npages
          invariant i <= m <= i + npages
          invariant |units| == |u|
          invariant forall x :: 0 <= x < |u| ==>
            units[x] == if i <= x < m then Stamp(u[x], caller, true) else u[x]
          decreases i + npages - m
        {
          units := units[m := units[m].(owner := Some(caller), next := true, used := true)];
          m := m + 1;
        }
        units := units[i + npages - 1 := units[i + npages - 1].(next := false)];
        pm' := pm.(emptyPageNumber := pm.emptyPageNumber - npages, units := units);
        assert pm'.units == Claim(pm, i, npages, caller).units;
        return;
      }
      // frame j is used: every start in i .. j contains it, so the scan resumes after j
      assert u[j].used && i <= j < i + npages;
      i := j + 1;
    }
    FirstFitNone(u, npages, i);
  }

  lemma FirstFitIsUnique(u: seq<MemUnit>, n: nat, i: nat)
    requires IsFirstFit(u, i, n)
    ensures FirstFit(u, n) == Some(i)
  {
    var r := FirstFit(u, n);
    if r.Some? {
      FirstFitUnique(u, n, r.value, i);
    }
  }

  lemma FirstFitNone(u: seq<MemUnit>, n: nat, i: nat)
    requires forall k :: 0 <= k < i ==> !FreeRunAt(u, k, n)
    requires i + n > |u|
    ensures FirstFit(u, n).None?
  {
  }

  /** Under the invariant, too few empty frames means there is no free run either, so the
      counter check of Find_EmptyPages never hides a run that exists. */
  lemma {:induction false} EmptyCountBoundsRuns(pm: PhysicalMemory, n: nat, i: nat)
    requires Valid(pm) && FreeRunAt(pm.units, i, n)
    ensures pm.emptyPageNumber >= n
  {
    var u := pm.units;
    CountSplit3(u, i, i + n, IsUsed);
    CountConst(u, i, i + n, IsUsed, false);
    assert Count(u[..i], IsUsed) <= i;
    assert Count(u[i + n..], IsUsed) <= |u| - (i + n);
  }

  /** Claiming a first-fit run keeps the coremap invariant and conserves frames. */
  lemma ClaimPreservesValid(pm: PhysicalMemory, i: nat, n: nat, caller: ThreadId)
    requires Valid(pm) && n >= 1 && FreeRunAt(pm.units, i, n)
    ensures Valid(Claim(pm, i, n, caller))
    ensures Count(Claim(pm, i, n, caller).units, IsUsed) == Count(pm.units, IsUsed) + n
  {
    var u := pm.units;
    var v := Claim(pm, i, n, caller).units;
    assert forall j :: i <= j < i + n ==> u[j] == FREE_UNIT;
    WindowCount(u, v, i, i + n, IsUsed, false, true);
    WindowCount(u, v, i, i + n, IsSwapable, false, false);
  }

  // ---------------------------------------------------------------- tagging (alloc_kpages)

  /** The swapable marking alloc_kpages / alloc_kpages_swapable put on a claimed run:
      the flag on every frame of the run, and n more swapable frames when it is set. */
  function Tag(pm: PhysicalMemory, i: nat, n: nat, swapable: bool): (r: PhysicalMemory)
    requires Wf(pm) && i + n <= pm.totalPageNumber
    ensures Wf(r) && |r.units| == |pm.units|
    ensures r.emptyPageNumber == pm.emptyPageNumber
    ensures r.swapableNumber == pm.swapableNumber + (if swapable then n else 0)
    ensures forall j :: i <= j < i + n ==> r.units[j] == pm.units[j].(swapable := swapable)
    ensures forall j :: 0 <= j < |pm.units| && !(i <= j < i + n) ==> r.units[j] == pm.units[j]
  {
    var u := pm.units;
    var units := seq(|u|, j requires 0 <= j < |u| =>
      if i <= j < i + n then u[j].(swapable := swapable) else u[j]);
    pm.(swapableNumber := pm.swapableNumber + (if swapable then n else 0), units := units)
  }

  /** Tagging a freshly claimed run keeps the invariant. */
  lemma TagClaimPreservesValid(pm: PhysicalMemory, i: nat, n: nat, caller: ThreadId, swapable: bool)
    requires Valid(pm) && n >= 1 && FreeRunAt(pm.units, i, n)
    ensures Valid(Tag(Claim(pm, i, n, caller), i, n, swapable))
  {
    var c := Claim(pm, i, n, caller);
    ClaimPreservesValid(pm, i, n, caller);
    var t := Tag(c, i, n, swapable);
    TagCounts(pm, c, t, i, n, swapable);
    assert FreeIsClear(t.units) by {
      forall j | 0 <= j < |t.units| && !t.units[j].used
        ensures t.units[j] == FREE_UNIT
      {
        assert !(i <= j < i + n);
      }
    }
    assert ChainsClosed(t.units) by {
      forall j | 0 <= j < |t.units| && t.units[j].next
        ensures j + 1 < |t.units| && t.units[j + 1].used
      {
        assert c.units[j].next;
      }
    }
  }

  lemma TagCounts(pm: PhysicalMemory, c: PhysicalMemory, t: PhysicalMemory, i: nat, n: nat, swapable: bool)
    requires Valid(pm) && n >= 1 && FreeRunAt(pm.units, i, n)
    requires Wf(c) && |c.units| == |pm.units|
    requires forall j :: i <= j < i + n ==> c.units[j].used && c.units[j].swapable == pm.units[j].swapable
    requires i + n <= c.totalPageNumber && t == Tag(c, i, n, swapable)
    ensures Count(t.units, IsUsed) == Count(c.units, IsUsed)
    ensures Count(t.units, IsSwapable) == Count(c.units, IsSwapable) + (if swapable then n else 0)
  {
    assert forall j :: i <= j < i + n ==> pm.units[j] == FREE_UNIT;
    WindowCount(c.units, t.units, i, i + n, IsUsed, true, true);
    WindowCount(c.units, t.units, i, i + n, IsSwapable, false, swapable);
  }

  // ---------------------------------------------------------------- free_kpages

  /** The frame index free_kpages computes from a kernel virtual address, in 32-bit
      unsigned arithmetic: ((addr - MIPS_KSEG0) - StartPointer) / PAGE_SIZE. */
  function FrameIndex(pm: PhysicalMemory, addr: nat): (index: nat)
    ensures index < WORD / PAGE_SIZE
    // an address inside the 32-bit window above the managed region's base never wraps
    ensures MIPS_KSEG0 + pm.startPointer <= addr < WORD ==>
      index == (addr - MIPS_KSEG0 - pm.startPointer) / PAGE_SIZE
  {
    Wrap32(Wrap32(addr - MIPS_KSEG0) - pm.startPointer) / PAGE_SIZE
  }

  /** The kernel virtual address of frame i (PADDR_TO_KVADDR of its physical address). */
  function FrameAddr(pm: PhysicalMemory, i: nat): (addr: nat)
    // every managed frame has a kseg0 address inside the 32-bit space, page-aligned
    // relative to the region's base
    ensures Wf(pm) && i < pm.totalPageNumber ==>
      MIPS_KSEG0 + pm.startPointer <= addr < MIPS_KSEG0 + KSEG0_SIZE
    ensures (addr - MIPS_KSEG0 - pm.startPointer) % PAGE_SIZE == 0
  {
    MIPS_KSEG0 + pm.startPointer + i * PAGE_SIZE
  }

  lemma FrameIndexOfFrameAddr(pm: PhysicalMemory, i: nat)
    requires Wf(pm) && i < pm.totalPageNumber
    ensures FrameAddr(pm, i) < WORD
    ensures FrameIndex(pm, FrameAddr(pm, i)) == i
  {
    assert Wrap32(FrameAddr(pm, i) - MIPS_KSEG0) == pm.startPointer + i * PAGE_SIZE;
    assert Wrap32(pm.startPointer + i * PAGE_SIZE - pm.startPointer) == i * PAGE_SIZE;
  }

  /** No address below MIPS_KSEG0 (a user address, or a swap-file offset) names a frame:
      the 32-bit subtraction wraps and the index lands far past the end of the table. */
  lemma LowAddressIsNoFrame(pm: PhysicalMemory, addr: nat)
    requires Wf(pm)
    ensures addr < MIPS_KSEG0 ==> FrameIndex(pm, addr) > pm.totalPageNumber
  {
    if addr < MIPS_KSEG0 {
      assert Wrap32(addr - MIPS_KSEG0) == addr + MIPS_KSEG0;
      var d := addr + MIPS_KSEG0 - pm.startPointer;
      assert Wrap32(d) == d;
      assert d >= MIPS_KSEG0 - KSEG0_SIZE;
      assert pm.totalPageNumber * PAGE_SIZE <= KSEG0_SIZE;
      assert d / PAGE_SIZE >= (MIPS_KSEG0 - KSEG0_SIZE) / PAGE_SIZE;
    }
  }

  /** Last frame of the walk that starts at i: the first record with `next` clear, or the
      last frame of the table. */
  function RunEnd(u: seq<MemUnit>, i: nat): (e: nat)
    requires i < |u|
    ensures i <= e < |u|
    ensures forall j :: i <= j < e ==> u[j].next
    ensures !u[e].next || e == |u| - 1
    decreases |u| - i
  {
    if !u[i].next || i + 1 == |u| then i else RunEnd(u, i + 1)
  }

  /** Frames i .. e cleared, with the counters adjusted per frame. */
  function Release(pm: PhysicalMemory, i: nat, e: nat): (r: PhysicalMemory)
    requires Wf(pm) && i <= e < pm.totalPageNumber
    ensures Wf(r) && |r.units| == |pm.units|
    ensures r.totalPageNumber == pm.totalPageNumber && r.startPointer == pm.startPointer
    ensures r.emptyPageNumber == pm.emptyPageNumber + (e - i + 1)
    ensures r.swapableNumber == pm.swapableNumber - Count(pm.units[i..e + 1], IsSwapable)
    ensures forall j :: i <= j <= e ==> r.units[j] == FREE_UNIT
    ensures forall j :: 0 <= j < |pm.units| && !(i <= j <= e) ==> r.units[j] == pm.units[j]
  {
    var u := pm.units;
    var units := seq(|u|, j requires 0 <= j < |u| => if i <= j <= e then FREE_UNIT else u[j]);
    PhysicalMemory(pm.swapableNumber - Count(u[i..e + 1], IsSwapable),
                   pm.emptyPageNumber + (e - i + 1), pm.totalPageNumber, pm.startPointer, units)
  }

  /** Reference definition of free_kpages: an index past the table trips the KASSERT, the
      index equal to the table size walks nothing, any other index releases its run. */
  function FreeSpec(pm: PhysicalMemory, addr: nat): Result<PhysicalMemory>
    requires Wf(pm)
  {
    var index := FrameIndex(pm, addr);
    if index > pm.totalPageNumber then Panic
    else if index == pm.totalPageNumber then Ok(pm)
    else Ok(Release(pm, index, RunEnd(pm.units, index)))
  }

  /** free_kpages: frees the run starting at the address's frame (see FreeWalk); an index
      past the table trips the KASSERT, and the index one past the last frame is skipped. */
  method FreeKPages(pm: PhysicalMemory, addr: nat) returns (r: Result<PhysicalMemory>)
    requires Wf(pm)
    ensures r == FreeSpec(pm, addr)
    ensures FrameIndex(pm, addr) > pm.totalPageNumber <==> r.Panic?
  {
    var index := FrameIndex(pm, addr);
    if index > pm.totalPageNumber {
      return Panic;
    }
    if index == pm.totalPageNumber {
      return Ok(pm);
    }
    var u, empty, swapables := FreeWalk(pm, index);
    r := Ok(PhysicalMemory(swapables, empty, pm.totalPageNumber, pm.startPointer, u));
  }

  /** The loop of free_kpages: walks the `next` chain from frame `index`, clearing each
      record, adding one empty frame per record and dropping one swapable frame per
      swapable record, up to and including the first record whose `next` is clear. */
  method FreeWalk(pm: PhysicalMemory, index: nat) returns (u: seq<MemUnit>, empty: int, swapables: int)
    requires Wf(pm) && index < pm.totalPageNumber
    ensures var e := RunEnd(pm.units, index);
      PhysicalMemory(swapables, empty, pm.totalPageNumber, pm.startPointer, u) == Release(pm, index, e)
  {
    u := pm.units;
    empty := pm.emptyPageNumber;
    swapables := pm.swapableNumber;
    var i := index;
    var done := false;
    while i < pm.totalPageNumber && !done
      invariant index <= i <= pm.totalPageNumber
      invariant |u| == |pm.units|
      invariant forall j :: index <= j < i - 1 ==> pm.units[j].next
      invariant !done && index < i ==> pm.units[i - 1].next
      invariant done ==> index < i && !pm.units[i - 1].next
      invariant forall j :: 0 <= j < |u| ==> u[j] == if index <= j < i then FREE_UNIT else pm.units[j]
      invariant empty == pm.emptyPageNumber + (i - index)
      invariant swapables == pm.swapableNumber - Count(pm.units[index..i], IsSwapable)
      decreases pm.totalPageNumber - i, if done then 0 else 1
    {
      var last := !u[i].next;
      var swapable := u[i].swapable;
      CountStep(pm.units, index, i, IsSwapable);
      u := u[i := FREE_UNIT];
      if swapable {
        swapables := swapables - 1;
      }
      empty := empty + 1;
      i := i + 1;
      if last {
        done := true;
      }
    }
    FreeWalkIsRelease(pm, index, i, u);
  }

  lemma CountStep(s: seq<MemUnit>, a: nat, i: nat, f: MemUnit -> bool)
    requires a <= i < |s|
    ensures Count(s[a..i + 1], f) == Count(s[a..i], f) + (if f(s[i]) then 1 else 0)
  {
    assert s[a..i + 1] == s[a..i] + [s[i]];
    CountConcat(s[a..i], [s[i]], f);
  }

  /** The state the free walk stops in is the reference release of the run. */
  lemma FreeWalkIsRelease(pm: PhysicalMemory, index: nat, i: nat, u: seq<MemUnit>)
    requires Wf(pm) && index < i <= pm.totalPageNumber
    requires forall j :: index <= j < i - 1 ==> pm.units[j].next
    requires !pm.units[i - 1].next || i == pm.totalPageNumber
    requires |u| == |pm.units|
    requires forall j :: 0 <= j < |u| ==> u[j] == if index <= j < i then FREE_UNIT else pm.units[j]
    ensures RunEnd(pm.units, index) == i - 1
    ensures u == Release(pm, index, i - 1).units
  {
    RunEndIsFirstStop(pm.units, index, i - 1);
  }

  lemma {:induction false} RunEndIsFirstStop(u: seq<MemUnit>, i: nat, e: nat)
    requires i <= e < |u|
    requires forall j :: i <= j < e ==> u[j].next
    requires !u[e].next || e == |u| - 1
    ensures RunEnd(u, i) == e
    decreases e - i
  {
    if i < e {
      RunEndIsFirstStop(u, i + 1, e);
    }
  }

  /** A frame that starts a run: no used predecessor chains into it. */
  predicate IsRunHead(u: seq<MemUnit>, i: nat)
  {
    i < |u| && u[i].used && (i == 0 || !u[i - 1].next)
  }

  /** A run of exactly one frame, as alloc_kpages(1) leaves it: a used run head whose
      `next` is clear. */
  predicate SingleFrame(u: seq<MemUnit>, i: nat)
  {
    IsRunHead(u, i) && !u[i].next
  }

  /** Freeing from the head of a run keeps the invariant and conserves frames: the walk
      stays inside the run, so exactly the released frames leave the used count. */
  lemma ReleaseRunPreservesValid(pm: PhysicalMemory, i: nat)
    requires Valid(pm) && IsRunHead(pm.units, i)
    ensures Valid(Release(pm, i, RunEnd(pm.units, i)))
  {
    var e := RunEnd(pm.units, i);
    UsedAlongRun(pm.units, i, e);
    ReleaseCounts(pm, i, e);
    ReleaseKeepsChains(pm, i, e);
  }

  lemma ReleaseCounts(pm: PhysicalMemory, i: nat, e: nat)
    requires Valid(pm) && i <= e < |pm.units|
    requires forall j :: i <= j <= e ==> pm.units[j].used
    ensures Count(Release(pm, i, e).units, IsUsed) == Count(pm.units, IsUsed) - (e - i + 1)
    ensures Count(Release(pm, i, e).units, IsSwapable) == Count(pm.units, IsSwapable) - Count(pm.units[i..e + 1], IsSwapable)
  {
    var u := pm.units;
    var v := Release(pm, i, e).units;
    WindowCount(u, v, i, e + 1, IsUsed, true, false);
    CountWindow(u, v, i, e + 1, IsSwapable);
    CountConst(v, i, e + 1, IsSwapable, false);
  }

  lemma ReleaseKeepsChains(pm: PhysicalMemory, i: nat, e: nat)
    requires Valid(pm) && IsRunHead(pm.units, i) && e == RunEnd(pm.units, i)
    ensures ChainsClosed(Release(pm, i, e).units)
  {
    var u := pm.units;
    var v := Release(pm, i, e).units;
    forall j | 0 <= j < |v| && v[j].next
      ensures j + 1 < |v| && v[j + 1].used
    {
      assert u[j].next && !(i <= j <= e);
      assert j + 1 != i;
    }
  }

  lemma UsedAlongRun(u: seq<MemUnit>, i: nat, e: nat)
    requires ChainsClosed(u) && i <= e < |u| && u[i].used
    requires forall j :: i <= j < e ==> u[j].next
    ensures forall j :: i <= j <= e ==> u[j].used
  {
    forall j | i <= j <= e
      ensures u[j].used
    {
      if j > i {
        assert u[j - 1].next;
      }
    }
  }

  /** Releasing a claimed and tagged run gives back the coremap it was claimed from. */
  lemma ReleaseUndoesClaim(pm: PhysicalMemory, i: nat, n: nat, caller: ThreadId, swapable: bool)
    requires Valid(pm) && n >= 1 && FreeRunAt(pm.units, i, n)
    ensures Release(Tag(Claim(pm, i, n, caller), i, n, swapable), i, i + n - 1) == pm
  {
    var t := Tag(Claim(pm, i, n, caller), i, n, swapable);
    var r := Release(t, i, i + n - 1);
    forall j | 0 <= j < |pm.units|
      ensures r.units[j] == pm.units[j]
    {
      if i <= j < i + n {
        assert pm.units[j] == FREE_UNIT;
      }
    }
    assert r.units == pm.units;
    CountConst(t.units, i, i + n, IsSwapable, swapable);
  }

  /** Allocation followed by free restores the coremap exactly: free_kpages on the address
      Find_EmptyPages returned walks exactly the n claimed frames back to clear records,
      and EmptyPageNumber returns to its old value. */
  lemma ClaimThenFreeRestores(pm: PhysicalMemory, i: nat, n: nat, caller: ThreadId, swapable: bool)
    requires Valid(pm) && n >= 1 && FreeRunAt(pm.units, i, n)
    ensures var t := Tag(Claim(pm, i, n, caller), i, n, swapable);
      FreeSpec(t, FrameAddr(pm, i)) == Ok(pm)
  {
    var t := Tag(Claim(pm, i, n, caller), i, n, swapable);
    FrameIndexOfFrameAddr(t, i);
    assert FrameAddr(t, i) == FrameAddr(pm, i);
    RunEndIsFirstStop(t.units, i, i + n - 1);
    ReleaseUndoesClaim(pm, i, n, caller, swapable);
  }
}

/** The address-space model of kern/vm/addrspace.c: four segments (code, data, heap, stack),
    each a start address, a byte bound and an ordered PTE list. Frame allocation is outside
    this module: every operation that calls alloc_kpages(1) per PTE receives the kernel
    addresses those calls returned, in call order, as `frames`. */
module AddrSpace {
  import opened Common
  import opened PageTable

  datatype Segment = Segment(start: nat, bound: nat, ptes: seq<Pte>)

  datatype AddrSpace = AddrSpace(code: Segment, data: Segment, heap: Segment, stack: Segment)

  datatype SegName = Code | Data | Heap | Stack

  function Seg(sp: AddrSpace, name: SegName): Segment
  {
    match name
    case Code => sp.code
    case Data => sp.data
    case Heap => sp.heap
    case Stack => sp.stack
  }

  /** The C field types: start is a vaddr_t and bound a size_t, both 32 bits. */
  predicate SegWf(seg: Segment)
  {
    seg.start < WORD && seg.bound < WORD
  }

  predicate SpaceWf(sp: AddrSpace)
  {
    SegWf(sp.code) && SegWf(sp.data) && SegWf(sp.heap) && SegWf(sp.stack)
  }

  /** Every PTE of the space, in the order as_copy and as_destroy visit them. */
  function AllPtes(sp: AddrSpace): seq<Pte>
  {
    sp.code.ptes + sp.data.ptes + sp.heap.ptes + sp.stack.ptes
  }

  // ---------------------------------------------------------------- construction

  /** SegmentInit: no PTEs, start 0, bound 0, so the segment maps no address. */
  function SegmentInit(): (r: Segment)
    ensures SegWf(r) && r.ptes == []
    ensures forall addr: nat :: addr < WORD ==> SegmentFindAddr(r, addr).None?
  {
    Segment(0, 0, [])
  }

  /** as_create (the kmalloc failure path is left out): four empty segments. */
  function AsCreate(): (sp: AddrSpace)
    ensures forall n: SegName :: Seg(sp, n).start == 0 && Seg(sp, n).bound == 0 && Seg(sp, n).ptes == []
    ensures SpaceWf(sp) && AllPtes(sp) == []
  {
    AddrSpace(SegmentInit(), SegmentInit(), SegmentInit(), SegmentInit())
  }

  /** PteList_Append: a copy of `pte` becomes the new tail; the old list is a prefix. */
  function PteListAppend(list: seq<Pte>, pte: Pte): (r: seq<Pte>)
    ensures |r| == |list| + 1
    ensures r[..|list|] == list && r[|list|] == pte
  {
    list + [pte]
  }

  /** PteList_InsertFront: a copy of `pte` becomes the new head; the old list follows. */
  function PteListInsertFront(list: seq<Pte>, pte: Pte): (r: seq<Pte>)
    ensures |r| == |list| + 1
    ensures r[0] == pte && r[1..] == list
  {
    [pte] + list
  }

  /** SegmentMakeNoZero: every PTE backed by the frame alloc_kpages(1) returned for it. */
  function SegmentMakeNoZero(seg: Segment, frames: seq<nat>): (r: Segment)
    requires |frames| == |seg.ptes|
    ensures r.start == seg.start && r.bound == seg.bound && |r.ptes| == |seg.ptes|
    ensures forall k :: 0 <= k < |r.ptes| ==> BackedBy(r.ptes[k], seg.ptes[k], frames[k])
  {
    var ptes := seq(|seg.ptes|, k requires 0 <= k < |seg.ptes| => Backed(seg.ptes[k], frames[k]));
    seg.(ptes := ptes)
  }

  /** Physical memory after bzero of every frame in `frames`. */
  function ZeroFrames(ram: Ram, frames: seq<nat>): (r: Ram)
    ensures forall k :: 0 <= k < |frames| ==> r(PhysOf(frames[k])) == ZERO_PAGE
    ensures forall p :: (forall k :: 0 <= k < |frames| ==> p != PhysOf(frames[k])) ==> r(p) == ram(p)
  {
    (p: nat) => if exists k :: 0 <= k < |frames| && p == PhysOf(frames[k]) then ZERO_PAGE else ram(p)
  }

  /** Zeroing the frames in two slices, as two SegmentMake calls do, zeroes every frame and
      leaves every other page alone. */
  lemma ZeroSplit(ram: Ram, frames: seq<nat>, c: nat)
    requires c <= |frames|
    ensures var r := ZeroFrames(ZeroFrames(ram, frames[..c]), frames[c..]);
      && (forall k :: 0 <= k < |frames| ==> r(PhysOf(frames[k])) == ZERO_PAGE)
      && (forall p :: (forall k :: 0 <= k < |frames| ==> p != PhysOf(frames[k])) ==> r(p) == ram(p))
  {
    var ram1 := ZeroFrames(ram, frames[..c]);
    var r := ZeroFrames(ram1, frames[c..]);
    forall k | 0 <= k < |frames|
      ensures r(PhysOf(frames[k])) == ZERO_PAGE
    {
      if k < c {
        assert frames[..c][k] == frames[k];
        if exists m :: 0 <= m < |frames[c..]| && PhysOf(frames[k]) == PhysOf(frames[c..][m]) {
          var m :| 0 <= m < |frames[c..]| && PhysOf(frames[k]) == PhysOf(frames[c..][m]);
          assert r(PhysOf(frames[c..][m])) == ZERO_PAGE;
        }
      } else {
        assert frames[c..][k - c] == frames[k];
      }
    }
    forall p | forall k :: 0 <= k < |frames| ==> p != PhysOf(frames[k])
      ensures r(p) == ram(p)
    {
      forall k | 0 <= k < c
        ensures p != PhysOf(frames[..c][k])
      {
        assert frames[..c][k] == frames[k];
      }
      forall k | 0 <= k < |frames| - c
        ensures p != PhysOf(frames[c..][k])
      {
        assert frames[c..][k] == frames[c + k];
      }
    }
  }

  /** SegmentMake: SegmentMakeNoZero plus a zero-filled frame behind every PTE. */
  function SegmentMake(seg: Segment, frames: seq<nat>, ram: Ram): (r: (Segment, Ram))
    requires |frames| == |seg.ptes|
    ensures r.0.start == seg.start && r.0.bound == seg.bound && |r.0.ptes| == |seg.ptes|
    ensures forall k :: 0 <= k < |r.0.ptes| ==> BackedBy(r.0.ptes[k], seg.ptes[k], frames[k])
    ensures forall k :: 0 <= k < |frames| ==> r.1(PhysOf(frames[k])) == ZERO_PAGE
    ensures forall p :: (forall k :: 0 <= k < |frames| ==> p != PhysOf(frames[k])) ==> r.1(p) == ram(p)
  {
    (SegmentMakeNoZero(seg, frames), ZeroFrames(ram, frames))
  }

  // ---------------------------------------------------------------- lookup

  /** Position-based address lookup: the k-th PTE covers `start + k * PAGE_SIZE`, provided
      the address is inside the segment's byte range and the list is long enough. */
  predicate Maps(seg: Segment, addr: nat, k: nat)
  {
    && seg.start <= addr < seg.start + seg.bound < WORD
    && addr == seg.start + k * PAGE_SIZE
    && k < |seg.ptes|
  }

  /** The list walk of SegmentFindAddr: the cursor starts at `start` and moves one page
      (in 32-bit arithmetic) per node. */
  function ScanFrom(ptes: seq<Pte>, k: nat, cursor: nat, addr: nat): Option<nat>
    requires k <= |ptes|
    decreases |ptes| - k
  {
    if k == |ptes| then None
    else if cursor == addr then Some(k)
    else ScanFrom(ptes, k + 1, Wrap32(cursor + PAGE_SIZE), addr)
  }

  lemma {:induction false} ScanFromAligned(ptes: seq<Pte>, k: nat, cursor: nat, addr: nat)
    requires k <= |ptes| && cursor <= addr < WORD && (addr - cursor) % PAGE_SIZE == 0
    ensures ScanFrom(ptes, k, cursor, addr) ==
      if k + (addr - cursor) / PAGE_SIZE < |ptes| then Some(k + (addr - cursor) / PAGE_SIZE) else None
    decreases |ptes| - k
  {
    if k < |ptes| && cursor != addr {
      assert cursor + PAGE_SIZE <= addr;
      ScanFromAligned(ptes, k + 1, cursor + PAGE_SIZE, addr);
      assert (addr - (cursor + PAGE_SIZE)) / PAGE_SIZE == (addr - cursor) / PAGE_SIZE - 1;
    }
  }

  lemma {:induction false} ScanFromMisaligned(ptes: seq<Pte>, k: nat, cursor: nat, addr: nat)
    requires k <= |ptes| && cursor % PAGE_SIZE != addr % PAGE_SIZE
    ensures ScanFrom(ptes, k, cursor, addr) == None
    decreases |ptes| - k
  {
    if k < |ptes| {
      Wrap32KeepsPageOffset(cursor + PAGE_SIZE);
      ScanFromMisaligned(ptes, k + 1, Wrap32(cursor + PAGE_SIZE), addr);
    }
  }

  /** SegmentFindAddr: NULL outside [start, start+bound) (computed in 32 bits), otherwise
      the k-th PTE exactly when addr == start + k * PAGE_SIZE and the list has it. */
  function SegmentFindAddr(seg: Segment, addr: nat): (r: Option<nat>)
    requires SegWf(seg) && addr < WORD
    ensures r.Some? ==> Maps(seg, addr, r.value)
    ensures r.None? ==> forall k :: !Maps(seg, addr, k)
  {
    if !(addr >= seg.start && addr < Wrap32(seg.start + seg.bound)) then
      None
    else
      var r := ScanFrom(seg.ptes, 0, seg.start, addr);
      if (addr - seg.start) % PAGE_SIZE == 0 then
        ScanFromAligned(seg.ptes, 0, seg.start, addr);
        r
      else
        assert seg.start % PAGE_SIZE != addr % PAGE_SIZE by {
          assert addr == seg.start + (addr - seg.start);
        }
        ScanFromMisaligned(seg.ptes, 0, seg.start, addr);
        r
  }

  /** The segment search order of as_pagefault: code, data, heap, stack. */
  function FindInSpace(sp: AddrSpace, addr: nat): (r: Option<(SegName, nat)>)
    requires SpaceWf(sp) && addr < WORD
    ensures r.Some? ==> Maps(Seg(sp, r.value.0), addr, r.value.1)
    ensures r.Some? && r.value.0 != Code ==> forall k :: !Maps(sp.code, addr, k)
    ensures r.Some? && (r.value.0 == Heap || r.value.0 == Stack) ==> forall k :: !Maps(sp.data, addr, k)
    ensures r.Some? && r.value.0 == Stack ==> forall k :: !Maps(sp.heap, addr, k)
    ensures r.None? ==> forall n: SegName, k :: !Maps(Seg(sp, n), addr, k)
  {
    match SegmentFindAddr(sp.code, addr)
    case Some(k) => Some((Code, k))
    case None =>
      match SegmentFindAddr(sp.data, addr)
      case Some(k) => Some((Data, k))
      case None =>
        match SegmentFindAddr(sp.heap, addr)
        case Some(k) => Some((Heap, k))
        case None =>
          match SegmentFindAddr(sp.stack, addr)
          case Some(k) => Some((Stack, k))
          case None => None
  }

  // ---------------------------------------------------------------- stack growth

  /** The PTE ExpandStack creates before backing it: read/write, not executable. */
  function NewStackPte(addr: nat, pid: int): Pte
  {
    Pte(addr, 0, 0, false, false, false, false, true, true, false, pid, 0)
  }

  /** ExpandStack: the stack now starts at `addr`, its bound grows by `sz` (asserted to be
      one page), a new PTE goes to the front of the list, and SegmentMake then backs
      EVERY stack PTE with a fresh zeroed frame, so it needs |stack| + 1 frames. */
  function ExpandStack(sp: AddrSpace, addr: nat, sz: nat, pid: int, frames: seq<nat>, ram: Ram)
    : (r: Result<(AddrSpace, Ram)>)
    requires |frames| == |sp.stack.ptes| + 1
    ensures r.Ok? <==> sz == PAGE_SIZE
    ensures r.Ok? ==> var (sp', ram') := r.value;
      && sp'.code == sp.code && sp'.data == sp.data && sp'.heap == sp.heap
      && sp'.stack.start == addr
      && sp'.stack.bound == Wrap32(sp.stack.bound + PAGE_SIZE)
      && |sp'.stack.ptes| == |sp.stack.ptes| + 1
      && BackedBy(sp'.stack.ptes[0], NewStackPte(addr, pid), frames[0])
      && sp'.stack.ptes[0].readable && sp'.stack.ptes[0].writeable && !sp'.stack.ptes[0].executable
      && (forall k :: 0 <= k < |sp.stack.ptes| ==> BackedBy(sp'.stack.ptes[k + 1], sp.stack.ptes[k], frames[k + 1]))
      && (forall k :: 0 <= k < |frames| ==> ram'(PhysOf(frames[k])) == ZERO_PAGE)
      && (forall p :: (forall k :: 0 <= k < |frames| ==> p != PhysOf(frames[k])) ==> ram'(p) == ram(p))
  {
    if sz != PAGE_SIZE then Panic
    else
      var grown := Segment(addr, Wrap32(sp.stack.bound + sz), PteListInsertFront(sp.stack.ptes, NewStackPte(addr, pid)));
      var (stack', ram') := SegmentMake(grown, frames, ram);
      Ok((sp.(stack := stack'), ram'))
  }

  /** as_define_stack: the stack pointer is USERSTACK and the page just below it becomes
      the first stack PTE, backed by a zeroed frame. */
  function AsDefineStack(sp: AddrSpace, pid: int, frames: seq<nat>, ram: Ram): (r: (AddrSpace, Ram, nat))
    requires SpaceWf(sp) && |frames| == |sp.stack.ptes| + 1
    ensures var (sp', ram', stackptr) := r;
      && stackptr == USERSTACK
      && SpaceWf(sp')
      && sp'.stack.start == USERSTACK - PAGE_SIZE
      && |sp'.stack.ptes| == |sp.stack.ptes| + 1
      && (0 < sp'.stack.bound && sp'.stack.start + sp'.stack.bound < WORD ==> SegmentFindAddr(sp'.stack, USERSTACK - PAGE_SIZE) == Some(0))
      && ram'(PhysOf(frames[0])) == ZERO_PAGE
      && BackedBy(sp'.stack.ptes[0], NewStackPte(USERSTACK - PAGE_SIZE, pid), frames[0])
  {
    var r := ExpandStack(sp, USERSTACK - PAGE_SIZE, PAGE_SIZE, pid, frames, ram);
    var (sp', ram') := r.value;
    assert Maps(sp'.stack, USERSTACK - PAGE_SIZE, 0) || sp'.stack.bound == 0 || sp'.stack.start + sp'.stack.bound >= WORD;
    (sp', ram', USERSTACK)
  }

  // ---------------------------------------------------------------- fault resolution

  /** as_pagefault: the first segment (code, data, heap, stack) that maps the address wins;
      otherwise the address must lie in the page below the stack start (KASSERT), the stack
      grows by one page and the lookup is repeated (KASSERT that it now hits). The result
      names the segment and list position of the PTE. */
  function AsPagefault(sp: AddrSpace, addr: nat, pid: int, frames: seq<nat>, ram: Ram)
    : (r: Result<(AddrSpace, Ram, SegName, nat)>)
    requires SpaceWf(sp) && addr < WORD && |frames| == |sp.stack.ptes| + 1
    ensures FindInSpace(sp, addr).Some? ==>
      r == Ok((sp, ram, FindInSpace(sp, addr).value.0, FindInSpace(sp, addr).value.1))
    ensures FindInSpace(sp, addr).None? && r.Ok? ==>
      && PAGE_SIZE <= sp.stack.start && addr == sp.stack.start - PAGE_SIZE
      && r.value.2 == Stack && r.value.3 == 0
      && r.value.0.stack.start == addr
      && |r.value.0.stack.ptes| == |sp.stack.ptes| + 1
      && r.value.0.code == sp.code && r.value.0.data == sp.data && r.value.0.heap == sp.heap
      && r.value.0.stack.bound == Wrap32(sp.stack.bound + PAGE_SIZE)
      && ExpandStack(sp, addr, PAGE_SIZE, pid, frames, ram) == Ok((r.value.0, r.value.1))
    ensures FindInSpace(sp, addr).None? && sp.stack.start + sp.stack.bound < WORD ==>
      (r.Ok? <==> PAGE_SIZE <= sp.stack.start && addr == sp.stack.start - PAGE_SIZE)
    ensures r.Ok? ==> SpaceWf(r.value.0) && r.value.3 < |Seg(r.value.0, r.value.2).ptes|
  {
    match FindInSpace(sp, addr)
    case Some((name, k)) => Ok((sp, ram, name, k))
    case None =>
      var below := Wrap32(sp.stack.start - PAGE_SIZE);
      if !(addr < sp.stack.start && addr >= below) then Panic
      else
        match ExpandStack(sp, below, PAGE_SIZE, pid, frames, ram)
        case Panic => Panic
        case Ok((sp', ram')) =>
          match SegmentFindAddr(sp'.stack, addr)
          case None => Panic
          case Some(k) => Ok((sp', ram', Stack, k))
  }

  // ---------------------------------------------------------------- copy / destroy

  /** Appends every PTE of `src` to `dst`, one PteList_Append at a time. */
  function AppendAll(dst: seq<Pte>, src: seq<Pte>): (r: seq<Pte>)
    ensures r == dst + src
    decreases |src|
  {
    if |src| == 0 then dst else AppendAll(PteListAppend(dst, src[0]), src[1..])
  }

  /** SegmentPreCopy: start and bound copied, the source PTEs appended in order. */
  function SegmentPreCopy(dst: Segment, src: Segment): (r: Segment)
    ensures r.start == src.start && r.bound == src.bound && r.ptes == dst.ptes + src.ptes
  {
    Segment(src.start, src.bound, AppendAll(dst.ptes, src.ptes))
  }

  /** The memmoves of SegmentCopy, in order: page `srcs[j]` copied onto page `dsts[j]`. */
  function CopyPages(ram: Ram, dsts: seq<nat>, srcs: seq<nat>): Ram
    requires |dsts| == |srcs|
    decreases |dsts|
  {
    if |dsts| == 0 then ram
    else CopyPages(WritePage(ram, dsts[0], ram(srcs[0])), dsts[1..], srcs[1..])
  }

  /** When the destination frames are distinct and none of them is a source frame, the
      sequence of memmoves copies every page pairwise and touches nothing else. */
  lemma {:induction false} CopyPagesPairwise(ram: Ram, dsts: seq<nat>, srcs: seq<nat>)
    requires |dsts| == |srcs|
    requires forall i, j :: 0 <= i < j < |dsts| ==> dsts[i] != dsts[j]
    requires forall i, j :: 0 <= i < |dsts| && 0 <= j < |srcs| ==> dsts[i] != srcs[j]
    ensures forall j :: 0 <= j < |dsts| ==> CopyPages(ram, dsts, srcs)(dsts[j]) == ram(srcs[j])
    ensures forall p :: p !in dsts ==> CopyPages(ram, dsts, srcs)(p) == ram(p)
    decreases |dsts|
  {
    if |dsts| > 0 {
      var ram1 := WritePage(ram, dsts[0], ram(srcs[0]));
      CopyPagesPairwise(ram1, dsts[1..], srcs[1..]);
      var r := CopyPages(ram, dsts, srcs);
      forall j | 0 <= j < |dsts|
        ensures r(dsts[j]) == ram(srcs[j])
      {
        if j == 0 {
          assert dsts[0] !in dsts[1..];
        } else {
          assert dsts[1..][j - 1] == dsts[j];
          assert srcs[1..][j - 1] == srcs[j];
        }
      }
      forall p | p !in dsts
        ensures r(p) == ram(p)
      {
        assert p !in dsts[1..];
      }
    }
  }

  function PhysicalsOf(ptes: seq<Pte>): (r: seq<nat>)
    ensures |r| == |ptes| && forall j :: 0 <= j < |ptes| ==> r[j] == ptes[j].physical
  {
    seq(|ptes|, j requires 0 <= j < |ptes| => ptes[j].physical)
  }

  /** Same start, bound and number of PTEs. */
  predicate SameShape(a: Segment, b: Segment)
  {
    a.start == b.start && a.bound == b.bound && |a.ptes| == |b.ptes|
  }

  /** One segment as as_copy builds it: SegmentPreCopy onto a fresh empty segment, then
      backed by the frames at positions lo .. lo+|ptes|-1 of `frames`. */
  function CopySeg(seg: Segment, frames: seq<nat>, lo: nat): (r: Segment)
    requires lo + |seg.ptes| <= |frames|
    ensures r.start == seg.start && r.bound == seg.bound && |r.ptes| == |seg.ptes|
    ensures forall k :: 0 <= k < |r.ptes| ==> BackedBy(r.ptes[k], seg.ptes[k], frames[lo + k])
  {
    var pre := SegmentPreCopy(SegmentInit(), seg);
    assert pre.ptes == seg.ptes;
    SegmentMakeNoZero(pre, frames[lo..lo + |seg.ptes|])
  }

  /** The segments as_copy builds, their frames taken in code, data, heap, stack order. */
  function CopySegments(src: AddrSpace, frames: seq<nat>): (r: AddrSpace)
    requires |frames| == |AllPtes(src)|
    ensures SameShape(r.code, src.code) && SameShape(r.data, src.data)
    ensures SameShape(r.heap, src.heap) && SameShape(r.stack, src.stack)
    ensures |AllPtes(r)| == |AllPtes(src)|
  {
    var c := |src.code.ptes|;
    var d := c + |src.data.ptes|;
    var h := d + |src.heap.ptes|;
    AddrSpace(CopySeg(src.code, frames, 0), CopySeg(src.data, frames, c),
              CopySeg(src.heap, frames, d), CopySeg(src.stack, frames, h))
  }

  /** as_copy (the as_create failure path is left out): each segment of the copy has the
      same start, bound and PTE order with the same permissions and pid, every PTE is
      backed by its own frame (taken from `frames` in code, data, heap, stack order), and
      then every page is memmoved from the old frame to the new one. */
  function AsCopy(src: AddrSpace, frames: seq<nat>, ram: Ram): (r: (AddrSpace, Ram))
    requires |frames| == |AllPtes(src)|
    ensures var (dst, ram') := r;
      && (forall n: SegName :: Seg(dst, n).start == Seg(src, n).start && Seg(dst, n).bound == Seg(src, n).bound
                                && |Seg(dst, n).ptes| == |Seg(src, n).ptes|)
      && |AllPtes(dst)| == |AllPtes(src)|
      && (forall j {:trigger AllPtes(dst)[j]} :: 0 <= j < |frames| ==> BackedBy(AllPtes(dst)[j], AllPtes(src)[j], frames[j]))
      && PhysicalsOf(AllPtes(dst)) == seq(|frames|, j requires 0 <= j < |frames| => PhysOf(frames[j]))
      && ram' == CopyPages(ram, PhysicalsOf(AllPtes(dst)), PhysicalsOf(AllPtes(src)))
  {
    var dst := CopySegments(src, frames);
    BackedConcat(src, frames);
    (dst, CopyPages(ram, PhysicalsOf(AllPtes(dst)), PhysicalsOf(AllPtes(src))))
  }

  /** Position j of AllPtes, located in its segment. */
  lemma AllPtesAt(sp: AddrSpace, j: nat)
    requires j < |AllPtes(sp)|
    ensures var c := |sp.code.ptes|; var d := c + |sp.data.ptes|; var h := d + |sp.heap.ptes|;
      AllPtes(sp)[j] ==
        if j < c then sp.code.ptes[j]
        else if j < d then sp.data.ptes[j - c]
        else if j < h then sp.heap.ptes[j - d]
        else sp.stack.ptes[j - h]
  {
  }

  /** Position j of the copy's PTE list is position j of the source's, backed by frames[j]. */
  lemma BackedAt(src: AddrSpace, frames: seq<nat>, j: nat)
    requires |frames| == |AllPtes(src)| && j < |frames|
    ensures var dst := CopySegments(src, frames);
      j < |AllPtes(dst)| && BackedBy(AllPtes(dst)[j], AllPtes(src)[j], frames[j])
  {
    var dst := CopySegments(src, frames);
    AllPtesAt(dst, j);
    AllPtesAt(src, j);
  }

  lemma BackedConcat(src: AddrSpace, frames: seq<nat>)
    requires |frames| == |AllPtes(src)|
    ensures var dst := CopySegments(src, frames);
      && |AllPtes(dst)| == |AllPtes(src)|
      && forall j {:trigger AllPtes(dst)[j]} :: 0 <= j < |frames| ==> BackedBy(AllPtes(dst)[j], AllPtes(src)[j], frames[j])
  {
    var dst := CopySegments(src, frames);
    forall j | 0 <= j < |frames|
      ensures BackedBy(AllPtes(dst)[j], AllPtes(src)[j], frames[j])
    {
      BackedAt(src, frames, j);
    }
  }

  /** Fork fidelity: when the new frames are distinct and disjoint from the old ones, every
      page of the copy holds exactly the contents of the page it was copied from, and no
      other physical page changes. */
  lemma AsCopyCopiesContents(src: AddrSpace, frames: seq<nat>, ram: Ram)
    requires |frames| == |AllPtes(src)|
    requires forall i, j :: 0 <= i < j < |frames| ==> PhysOf(frames[i]) != PhysOf(frames[j])
    requires forall i, j :: 0 <= i < |frames| && 0 <= j < |frames| ==> PhysOf(frames[i]) != AllPtes(src)[j].physical
    ensures var (dst, ram') := AsCopy(src, frames, ram);
      && (forall j :: 0 <= j < |frames| ==> ram'(AllPtes(dst)[j].physical) == ram(AllPtes(src)[j].physical))
      && (forall p :: (forall j :: 0 <= j < |frames| ==> p != PhysOf(frames[j])) ==> ram'(p) == ram(p))
  {
    var r := AsCopy(src, frames, ram);
    var dsts := PhysicalsOf(AllPtes(r.0));
    var srcs := PhysicalsOf(AllPtes(src));
    CopyPagesPairwise(ram, dsts, srcs);
  }

  /** as_destroy: the addresses handed to free_kpages, one per PTE of every segment in code,
      data, heap, stack order, whatever the PTE's residency (the `virtual` field is freed
      as it stands). */
  function AsDestroy(sp: AddrSpace): (freed: seq<nat>)
    ensures |freed| == |AllPtes(sp)|
    ensures forall j :: 0 <= j < |freed| ==> freed[j] == AllPtes(sp)[j].virtual
  {
    var all := AllPtes(sp);
    seq(|all|, j requires 0 <= j < |all| => all[j].virtual)
  }

  // ---------------------------------------------------------------- program loading

  /** The PTE as_define_region creates for page i of a region. */
  function RegionPte(base: nat, i: nat, readable: bool, writeable: bool, executable: bool, pid: int): Pte
  {
    Pte(Wrap32(base + i * PAGE_SIZE), 0, 0, false, false, false, false, readable, writeable, executable, pid, 0)
  }

  function RegionPtes(base: nat, npages: nat, readable: bool, writeable: bool, executable: bool, pid: int): (r: seq<Pte>)
    ensures |r| == npages
    ensures forall i :: 0 <= i < npages ==> r[i] == RegionPte(base, i, readable, writeable, executable, pid)
    decreases npages
  {
    if npages == 0 then []
    else PteListAppend(RegionPtes(base, npages - 1, readable, writeable, executable, pid),
                       RegionPte(base, npages - 1, readable, writeable, executable, pid))
  }

  /** The aligned region: base rounded down to a page, size grown by the in-page offset
      (in 32 bits), and the page count rounded up (also in 32 bits). */
  function AlignedBase(vaddr: nat): nat { vaddr - vaddr % PAGE_SIZE }
  function AlignedSize(vaddr: nat, sz: nat): nat { Wrap32(sz + vaddr % PAGE_SIZE) }
  function RegionPages(vaddr: nat, sz: nat): nat { Wrap32(AlignedSize(vaddr, sz) + PAGE_SIZE - 1) / PAGE_SIZE }

  /** The page count is the ceiling of the aligned size over PAGE_SIZE when nothing wraps. */
  lemma RegionPagesIsCeiling(vaddr: nat, sz: nat)
    requires vaddr < WORD && sz + vaddr % PAGE_SIZE + PAGE_SIZE - 1 < WORD
    ensures AlignedSize(vaddr, sz) == sz + vaddr % PAGE_SIZE
    ensures RegionPages(vaddr, sz) * PAGE_SIZE >= AlignedSize(vaddr, sz)
    ensures RegionPages(vaddr, sz) * PAGE_SIZE < AlignedSize(vaddr, sz) + PAGE_SIZE
  {
  }

  /** The segment as_define_region builds. */
  function RegionSegment(vaddr: nat, sz: nat, readable: bool, writeable: bool, executable: bool, pid: int): Segment
  {
    Segment(AlignedBase(vaddr), AlignedSize(vaddr, sz),
            RegionPtes(AlignedBase(vaddr), RegionPages(vaddr, sz), readable, writeable, executable, pid))
  }

  /** as_define_region: the region goes into code while code has no PTEs, else into data
      while data has none, else ENOSYS with the space unchanged. Its PTEs are the pages of
      the aligned region in ascending order, none resident or valid, with the requested
      permissions. */
  function AsDefineRegion(sp: AddrSpace, vaddr: nat, sz: nat, readable: bool, writeable: bool,
                          executable: bool, pid: int): (r: (AddrSpace, Option<Errno>))
    requires SpaceWf(sp) && vaddr < WORD && sz < WORD
    ensures SpaceWf(r.0)
    ensures r.1 == None || r.1 == Some(ENOSYS)
    ensures r.1 == Some(ENOSYS) <==> |sp.code.ptes| > 0 && |sp.data.ptes| > 0
    ensures r.1 == Some(ENOSYS) ==> r.0 == sp
    ensures |sp.code.ptes| == 0 ==> r.0 == sp.(code := RegionSegment(vaddr, sz, readable, writeable, executable, pid))
    ensures |sp.code.ptes| > 0 && |sp.data.ptes| == 0 ==>
      r.0 == sp.(data := RegionSegment(vaddr, sz, readable, writeable, executable, pid))
  {
    var seg := RegionSegment(vaddr, sz, readable, writeable, executable, pid);
    if |sp.code.ptes| == 0 then (sp.(code := seg), None)
    else if |sp.data.ptes| == 0 then (sp.(data := seg), None)
    else (sp, Some(ENOSYS))
  }

  /** Shape of the region segment: page-aligned base at or below vaddr, one PTE per page at
      ascending addresses, each not resident, not valid, with the requested permissions. */
  lemma RegionSegmentShape(vaddr: nat, sz: nat, readable: bool, writeable: bool, executable: bool, pid: int)
    requires vaddr < WORD && sz < WORD
    ensures var seg := RegionSegment(vaddr, sz, readable, writeable, executable, pid);
      && seg.start % PAGE_SIZE == 0 && seg.start <= vaddr < seg.start + PAGE_SIZE
      && |seg.ptes| == RegionPages(vaddr, sz)
      && (forall i :: 0 <= i < |seg.ptes| && seg.start + i * PAGE_SIZE < WORD ==>
            seg.ptes[i].virtual == seg.start + i * PAGE_SIZE)
      && (forall i :: 0 <= i < |seg.ptes| ==>
            && !seg.ptes[i].isInMemory && !seg.ptes[i].valid && !seg.ptes[i].swapable
            && seg.ptes[i].readable == readable && seg.ptes[i].writeable == writeable
            && seg.ptes[i].executable == executable && seg.ptes[i].pid == pid)
  {
  }

  /** as_prepare_load: every code and data PTE backed by a zeroed frame (code first). */
  function AsPrepareLoad(sp: AddrSpace, frames: seq<nat>, ram: Ram): (r: (AddrSpace, Ram))
    requires |frames| == |sp.code.ptes| + |sp.data.ptes|
    ensures var (sp', ram') := r;
      && sp'.heap == sp.heap && sp'.stack == sp.stack
      && sp'.code.start == sp.code.start && sp'.code.bound == sp.code.bound
      && sp'.data.start == sp.data.start && sp'.data.bound == sp.data.bound
      && |sp'.code.ptes| == |sp.code.ptes| && |sp'.data.ptes| == |sp.data.ptes|
      && (forall k :: 0 <= k < |sp.code.ptes| ==> BackedBy(sp'.code.ptes[k], sp.code.ptes[k], frames[k]))
      && (forall k :: 0 <= k < |sp.data.ptes| ==>
            BackedBy(sp'.data.ptes[k], sp.data.ptes[k], frames[|sp.code.ptes| + k]))
      && (forall k :: 0 <= k < |frames| ==> ram'(PhysOf(frames[k])) == ZERO_PAGE)
      && (forall p :: (forall k :: 0 <= k < |frames| ==> p != PhysOf(frames[k])) ==> ram'(p) == ram(p))
  {
    var c := |sp.code.ptes|;
    var (code', ram1) := SegmentMake(sp.code, frames[..c], ram);
    var (data', ram2) := SegmentMake(sp.data, frames[c..], ram1);
    ZeroSplit(ram, frames, c);
    (sp.(code := code', data := data'), ram2)
  }

  /** as_prepare_load then as_destroy: the addresses freed are the frames the code and data
      PTEs were backed with, in order, followed by the heap and stack PTEs' own addresses. */
  lemma PrepareLoadThenDestroyFrees(sp: AddrSpace, frames: seq<nat>, ram: Ram)
    requires |frames| == |sp.code.ptes| + |sp.data.ptes|
    ensures var freed := AsDestroy(AsPrepareLoad(sp, frames, ram).0);
      && |freed| == |AsDestroy(sp)|
      && freed[..|frames|] == frames
      && freed[|frames|..] == AsDestroy(sp)[|frames|..]
  {
    var sp' := AsPrepareLoad(sp, frames, ram).0;
    var freed := AsDestroy(sp');
    forall j | 0 <= j < |frames|
      ensures freed[j] == frames[j]
    {
      AllPtesAt(sp', j);
    }
    forall j | |frames| <= j < |freed|
      ensures freed[j] == AsDestroy(sp)[j]
    {
      AllPtesAt(sp', j);
      AllPtesAt(sp, j);
    }
  }

  /** as_copy then as_destroy of the copy: the addresses freed are exactly the new frames,
      in the order the copy took them. */
  lemma CopyThenDestroyFrees(src: AddrSpace, frames: seq<nat>, ram: Ram)
    requires |frames| == |AllPtes(src)|
    ensures AsDestroy(AsCopy(src, frames, ram).0) == frames
  {
    var dst := AsCopy(src, frames, ram).0;
    var freed := AsDestroy(dst);
    forall j | 0 <= j < |frames|
      ensures freed[j] == frames[j]
    {
      assert BackedBy(AllPtes(dst)[j], AllPtes(src)[j], frames[j]);
    }
  }
}

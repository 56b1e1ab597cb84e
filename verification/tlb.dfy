/** The software view of the MIPS TLB used by kern/arch/mips/vm/tpvm.c: NUM_TLB (hi, lo)
    pairs, slot choice in WriteToTlb, and the flush in as_activate. Slot 0 holds the
    mapping vm_bootstrap writes for the coremap and is never chosen or flushed. */
module Tlb {
  import opened Common

  const NUM_TLB: nat := 64
  const TLBLO_VALID: nat := 0x200
  const TLBLO_DIRTY: nat := 0x400
  const TLBLO_INVALID: nat := 0

  /** The EntryHi value that invalidates slot i: a distinct page in the unmapped kseg0
      range for every slot, so no two invalid entries ever match the same address. */
  function TlbHiInvalid(i: nat): nat
  {
    (0x80000 + i) * PAGE_SIZE
  }

  datatype TlbEntry = TlbEntry(hi: nat, lo: nat)

  type TlbState = seq<TlbEntry>

  /** `lo & flag` for a single-bit flag. */
  predicate HasFlag(lo: nat, flag: nat)
    requires flag > 0
  {
    (lo / flag) % 2 == 1
  }

  /** `lo | flag` for a single-bit flag. */
  function SetFlag(lo: nat, flag: nat): (r: nat)
    requires flag > 0
    ensures HasFlag(r, flag)
    ensures r == lo || r == lo + flag
  {
    if HasFlag(lo, flag) then lo
    else
      DivStep(lo, flag);
      lo + flag
  }

  lemma DivStep(x: nat, d: nat)
    requires d > 0
    ensures (x + d) / d == x / d + 1
  {
    var q, r := x / d, x % d;
    assert x == q * d + r && 0 <= r < d;
    assert x + d == (q + 1) * d + r;
    DivUnique(x + d, d, q + 1, r);
  }

  lemma DivUnique(x: nat, d: nat, q: int, r: int)
    requires d > 0 && 0 <= r < d && x == q * d + r
    ensures x / d == q
  {
    var q', r' := x / d, x % d;
    assert (q - q') * d == r' - r;
    if q > q' {
      MulAtLeast(q - q', d);
    } else if q < q' {
      MulAtLeast(q' - q, d);
    }
  }

  lemma MulAtLeast(k: int, d: nat)
    requires k >= 1
    ensures k * d >= d
  {
  }

  /** `lo | TLBLO_DIRTY | TLBLO_VALID`: the writable, valid EntryLo for a frame. */
  function ValidLo(frame: nat): (r: nat)
    ensures HasFlag(r, TLBLO_VALID)
    // for a page-aligned frame both bits are set, nothing carries into the frame number,
    // and the frame number is the one installed
    ensures frame % PAGE_SIZE == 0 ==>
      && HasFlag(r, TLBLO_DIRTY)
      && r == frame + TLBLO_DIRTY + TLBLO_VALID
      && r / PAGE_SIZE == frame / PAGE_SIZE
  {
    if frame % PAGE_SIZE == 0 then
      FlagsOfAligned(frame);
      SetFlag(SetFlag(frame, TLBLO_DIRTY), TLBLO_VALID)
    else
      SetFlag(SetFlag(frame, TLBLO_DIRTY), TLBLO_VALID)
  }

  /** The flag arithmetic on a page-aligned frame: neither bit is set beforehand, and the
      two bits land in the page offset. */
  lemma FlagsOfAligned(frame: nat)
    requires frame % PAGE_SIZE == 0
    ensures !HasFlag(frame, TLBLO_DIRTY)
    ensures !HasFlag(frame + TLBLO_DIRTY, TLBLO_VALID)
    ensures HasFlag(frame + TLBLO_DIRTY + TLBLO_VALID, TLBLO_DIRTY)
    ensures (frame + TLBLO_DIRTY + TLBLO_VALID) / PAGE_SIZE == frame / PAGE_SIZE
  {
    var m := frame / PAGE_SIZE;
    assert frame == m * PAGE_SIZE;
    QuotientParity(frame, TLBLO_DIRTY, 4 * m, 0);
    QuotientParity(frame + TLBLO_DIRTY, TLBLO_VALID, 8 * m + 2, 0);
    QuotientParity(frame + TLBLO_DIRTY + TLBLO_VALID, TLBLO_DIRTY, 4 * m + 1, 0x200);
    DivUnique(frame + TLBLO_DIRTY + TLBLO_VALID, PAGE_SIZE, m, 0x600);
  }

  /** A flag test through a known quotient: the flag is set exactly when the quotient is odd. */
  lemma QuotientParity(x: nat, flag: nat, q: nat, r: nat)
    requires flag > 0 && r < flag && x == q * flag + r
    ensures HasFlag(x, flag) <==> q % 2 == 1
  {
    DivUnique(x, flag, q, r);
  }

  predicate EntryValid(e: TlbEntry)
  {
    HasFlag(e.lo, TLBLO_VALID)
  }

  function FirstInvalidFrom(t: TlbState, from: nat): (r: Option<nat>)
    requires 1 <= from <= |t|
    ensures r.Some? ==> from <= r.value < |t| && !EntryValid(t[r.value])
    ensures r.Some? ==> forall j :: from <= j < r.value ==> EntryValid(t[j])
    ensures r.None? ==> forall j :: from <= j < |t| ==> EntryValid(t[j])
    decreases |t| - from
  {
    if from == |t| then None
    else if !EntryValid(t[from]) then Some(from)
    else FirstInvalidFrom(t, from + 1)
  }

  /** Reference definition of WriteToTlb's slot: the first slot after 0 without VALID. */
  function FirstInvalid(t: TlbState): (r: Option<nat>)
    requires |t| == NUM_TLB
    ensures r.Some? ==> 1 <= r.value < NUM_TLB && !EntryValid(t[r.value])
    ensures r.Some? ==> forall j :: 1 <= j < r.value ==> EntryValid(t[j])
    ensures r.None? ==> forall j :: 1 <= j < NUM_TLB ==> EntryValid(t[j])
  {
    FirstInvalidFrom(t, 1)
  }

  /** WriteToTlb: the entry goes into the first slot in 1 .. NUM_TLB-1 whose EntryLo lacks
      VALID, and 0 is returned; with every such slot valid nothing is written and -1 is
      returned. Slot 0 is never touched. */
  method WriteToTlb(t: TlbState, ehi: nat, elo: nat) returns (rc: int, t': TlbState)
    requires |t| == NUM_TLB
    ensures rc == 0 || rc == -1
    ensures rc == -1 <==> FirstInvalid(t).None?
    ensures rc == -1 ==> t' == t
    ensures rc == 0 ==> t' == t[FirstInvalid(t).value := TlbEntry(ehi, elo)]
    ensures |t'| == NUM_TLB && t'[0] == t[0]
  {
    var i := 1;
    while i < NUM_TLB
      invariant 1 <= i <= NUM_TLB
      invariant FirstInvalidFrom(t, i) == FirstInvalid(t)
      decreases NUM_TLB - i
    {
      if EntryValid(t[i]) {
        i := i + 1;
        continue;
      }
      return 0, t[i := TlbEntry(ehi, elo)];
    }
    return -1, t;
  }

  /** The TLB after the flush of as_activate: slot 0 kept, every other slot invalid with its
      own EntryHi. Without an address space nothing changes. The SwapInPages call behind
      `if (false)` is dead and has no effect. */
  function AsActivate(hasSpace: bool, t: TlbState): (r: TlbState)
    requires |t| == NUM_TLB
    ensures |r| == NUM_TLB
    ensures !hasSpace ==> r == t
    ensures hasSpace ==> r[0] == t[0]
    ensures hasSpace ==> forall i :: 1 <= i < NUM_TLB ==> r[i] == TlbEntry(TlbHiInvalid(i), TLBLO_INVALID)
  {
    if !hasSpace then t
    else
      seq(NUM_TLB, i requires 0 <= i < NUM_TLB =>
        if i == 0 then t[0] else TlbEntry(TlbHiInvalid(i), TLBLO_INVALID))
  }

  /** After a flush no slot but 0 is valid, the invalidating EntryHi values are pairwise
      distinct, and the next WriteToTlb lands in slot 1. */
  lemma ActivateFreesEverySlot(t: TlbState)
    requires |t| == NUM_TLB
    ensures var r := AsActivate(true, t);
      && (forall i :: 1 <= i < NUM_TLB ==> !EntryValid(r[i]))
      && (forall i, j :: 1 <= i < j < NUM_TLB ==> r[i].hi != r[j].hi)
      && FirstInvalid(r) == Some(1)
  {
    var r := AsActivate(true, t);
    assert !EntryValid(r[1]);
  }

  /** The slot 0 mapping vm_bootstrap installs for the coremap pages at `addr`. */
  function BootTlb(t: TlbState, addr: nat): (r: TlbState)
    requires |t| == NUM_TLB
    ensures |r| == NUM_TLB && r[0].hi == addr && EntryValid(r[0])
    ensures forall i :: 1 <= i < NUM_TLB ==> r[i] == t[i]
  {
    t[0 := TlbEntry(addr, ValidLo(addr))]
  }
}

/** Shared vocabulary of the model: optional values, the kernel-panic outcome of a failed
    KASSERT, the error numbers the core returns, and the 32/64-bit arithmetic of the MIPS
    build (vaddr_t, paddr_t, size_t and uint32_t are 32 bits wide, off_t and uint64_t 64). */
module Common {

  datatype Option<+T> = None | Some(value: T)

  /** Outcome of an operation that may hit a failed KASSERT (or a dereference the kernel
      cannot survive). `Panic` is a halted kernel, never a recoverable error. */
  datatype Result<+T> = Ok(value: T) | Panic

  /** The error numbers this core returns. Their numeric values live in kern/errno.h,
      which is not part of this model, so they are kept symbolic. */
  datatype Errno = ENOSYS | EFAULT | EBADF | EINVAL | ESPIPE | ENOMEM

  /** A system-call style return: a value, or the negated error number. */
  datatype SysRet = Value(v: int) | Error(e: Errno)

  const PAGE_SIZE: nat := 4096
  /** 2^32: the width of vaddr_t, paddr_t, size_t and uint32_t. */
  const WORD: nat := 0x1_0000_0000
  /** 2^64: the width of uint64_t and off_t. */
  const WORD64: nat := 0x1_0000_0000_0000_0000
  /** Base of the direct-mapped kernel segment; PADDR_TO_KVADDR(p) == p + MIPS_KSEG0. */
  const MIPS_KSEG0: nat := 0x8000_0000
  /** kseg0 maps the low 512 MB of physical memory. */
  const KSEG0_SIZE: nat := 0x2000_0000
  /** Top of the user stack (USERSPACETOP). */
  const USERSTACK: nat := 0x8000_0000

  /** Truncation of an unbounded result to 32 bits, as unsigned C arithmetic does. */
  function Wrap32(x: int): (r: nat)
    ensures r < WORD
    ensures 0 <= x < WORD ==> r == x
    ensures WORD <= x < 2 * WORD ==> r == x - WORD
    ensures x < 0 && 0 <= x + WORD ==> r == x + WORD
  {
    x % WORD
  }

  /** Truncation to 64 bits (uint64_t). */
  function Wrap64(x: int): (r: nat)
    ensures r < WORD64
    ensures 0 <= x < WORD64 ==> r == x
  {
    x % WORD64
  }

  /** Reading a uint64_t as an off_t (two's complement). */
  function ToSigned64(x: nat): (r: int)
    requires x < WORD64
    ensures 0 <= r + WORD64 / 2 && r < WORD64 / 2
    ensures Wrap64(r) == x
    ensures x < WORD64 / 2 ==> r == x
  {
    if x < WORD64 / 2 then x else x - WORD64
  }

  /** `a & PAGE_FRAME` (PAGE_FRAME == 0xfffff000) for a 32-bit address. */
  function PageFrame(a: nat): (r: nat)
    ensures r <= a && r % PAGE_SIZE == 0
    ensures a - r < PAGE_SIZE
  {
    a - a % PAGE_SIZE
  }

  /** Reducing modulo 2^32 keeps the remainder modulo PAGE_SIZE, because PAGE_SIZE divides 2^32. */
  lemma Wrap32KeepsPageOffset(x: int)
    ensures Wrap32(x) % PAGE_SIZE == x % PAGE_SIZE
  {
    var q := x / WORD;
    assert x == q * WORD + Wrap32(x);
    assert q * WORD == (q * 0x10_0000) * PAGE_SIZE;
    var m := q * 0x10_0000;
    assert (m * PAGE_SIZE + Wrap32(x)) % PAGE_SIZE == Wrap32(x) % PAGE_SIZE by {
      AddMultipleKeepsMod(Wrap32(x), m);
    }
  }

  lemma AddMultipleKeepsMod(r: int, m: int)
    ensures (m * PAGE_SIZE + r) % PAGE_SIZE == r % PAGE_SIZE
  {
  }

  // ---------------------------------------------------------------- counting

  /** Number of elements of `s` satisfying `f`. */
  function Count<T>(s: seq<T>, f: T -> bool): (n: nat)
    ensures n <= |s|
  {
    if |s| == 0 then 0 else (if f(s[0]) then 1 else 0) + Count(s[1..], f)
  }

  lemma {:induction false} CountConcat<T>(a: seq<T>, b: seq<T>, f: T -> bool)
    ensures Count(a + b, f) == Count(a, f) + Count(b, f)
    decreases |a|
  {
    if |a| == 0 {
      assert a + b == b;
    } else {
      assert (a + b)[1..] == a[1..] + b;
      CountConcat(a[1..], b, f);
    }
  }

  lemma {:induction false} CountAll<T>(s: seq<T>, f: T -> bool)
    requires forall i :: 0 <= i < |s| ==> f(s[i])
    ensures Count(s, f) == |s|
    decreases |s|
  {
    if |s| > 0 {
      CountAll(s[1..], f);
    }
  }

  lemma {:induction false} CountNone<T>(s: seq<T>, f: T -> bool)
    requires forall i :: 0 <= i < |s| ==> !f(s[i])
    ensures Count(s, f) == 0
    decreases |s|
  {
    if |s| > 0 {
      CountNone(s[1..], f);
    }
  }

  /** Overwriting one element moves the count by at most one, as the old and new values
      dictate. */
  lemma {:induction false} CountUpdate<T>(s: seq<T>, i: nat, v: T, f: T -> bool)
    requires i < |s|
    ensures Count(s[i := v], f) == Count(s, f) - (if f(s[i]) then 1 else 0) + (if f(v) then 1 else 0)
    decreases i
  {
    if i > 0 {
      assert s[i := v][1..] == s[1..][i - 1 := v];
      CountUpdate(s[1..], i - 1, v, f);
    }
  }

  /** An element satisfying `f` is counted. */
  lemma {:induction false} CountHit<T>(s: seq<T>, i: nat, f: T -> bool)
    requires i < |s| && f(s[i])
    ensures Count(s, f) >= 1
    decreases i
  {
    if i > 0 {
      CountHit(s[1..], i - 1, f);
    }
  }
}

/** Machine integers, C conversions and the errno values the two drivers return. */
module Machine {

  const U32_RANGE: int := 0x1_0000_0000

  type u32 = n: int | 0 <= n < 0x1_0000_0000
  type s32 = n: int | -0x8000_0000 <= n < 0x8000_0000
  type s64 = n: int | -0x8000_0000_0000_0000 <= n < 0x8000_0000_0000_0000

  const UINT_MAX: u32 := 0xFFFF_FFFF
  const INT_MIN: s32 := -0x8000_0000
  const INT_MAX: s32 := 0x7FFF_FFFF
  const LONG_MIN: s64 := -0x8000_0000_0000_0000

  const ESRCH: int := 3
  const EAGAIN: int := 11
  const ENOMEM: int := 12
  const EFAULT: int := 14
  const ENODEV: int := 19
  const EINVAL: int := 22
  const ENOSPC: int := 28

  datatype Option<+T> = None | Some(value: T)

  function Min(a: int, b: int): int {
    if a <= b then a else b
  }

  function Max(a: int, b: int): int {
    if a <= b then b else a
  }

  function Abs(a: int): nat {
    if a < 0 then -a else a
  }

  /** Unsigned addition, wrapping at 32 bits. */
  function AddU32(a: u32, b: u32): u32 {
    if a + b < 0x1_0000_0000 then a + b else a + b - 0x1_0000_0000
  }

  /** Unsigned multiplication, wrapping at 32 bits. */
  function MulU32(a: u32, b: u32): u32 {
    (a * b) % 0x1_0000_0000
  }

  /** The cast (int)n of an unsigned int. */
  function AsInt(n: u32): s32 {
    if n < 0x8000_0000 then n else n - 0x1_0000_0000
  }

  lemma CastIsModular(n: u32)
    ensures (n - AsInt(n)) % U32_RANGE == 0
  {
  }

  /** Signed addition in an int; the kernel is built so that it wraps. */
  function AddS32(a: s32, b: s32): s32 {
    AsInt((a + b) % 0x1_0000_0000)
  }

  lemma Associative<T>(a: seq<T>, b: seq<T>, c: seq<T>)
    ensures (a + b) + c == a + (b + c)
  {
  }
}

/** Byte values, the platform limits the C code works under, and the
    Option/Result wrappers that stand for its "0 and NULL on failure" returns. */
module Bytes {

  /** An unsigned 8-bit value (`uint8_t`). */
  type uint8 = x: int | 0 <= x < 0x100

  /** `SIZE_MAX` on a 64-bit platform: the largest `size_t`. */
  const SIZE_MAX: nat := 0xFFFF_FFFF_FFFF_FFFF

  /** One more than the largest `uint64_t`. */
  const UINT64_LIMIT: nat := 0x1_0000_0000_0000_0000

  datatype Option<+T> = None | Some(value: T)

  datatype Result<+T, +E> = Success(value: T) | Failure(error: E)

  /** `n` copies of `v`, what `memset` writes. */
  function Repeat(v: uint8, n: nat): (r: seq<uint8>)
    ensures |r| == n
  {
    seq(n, _ => v)
  }

  /** 2 to the power `k`. */
  function Pow2(k: nat): (r: nat)
    ensures r >= 1
  {
    if k == 0 then 1 else 2 * Pow2(k - 1)
  }

  lemma ConcatAssoc<T>(a: seq<T>, b: seq<T>, c: seq<T>)
    ensures a + (b + c) == a + b + c
  {
  }
}

/** Size arithmetic of the platform: `size_t` values, their wrap-around, and
    the allocation size of an xtring (`struct_size` in src/xtr_utils.c). */
module Sizing {

  /** `sizeof(size_t)`: the model fixes a 64-bit platform. */
  const WORD: nat := 8

  const SIZE_MAX: nat := 0xFFFF_FFFF_FFFF_FFFF

  /** Sentinel returned by the allocation-size computation when it wrapped. */
  const SIZE_OVERFLOW: nat := 0

  const TERMINATOR_LEN: nat := 1

  /** `XTR_MAX_CAPACITY`: the largest capacity whose allocation size fits. */
  const MAX_CAPACITY: nat := SIZE_MAX - WORD * 2 - 1

  /** `XTR_NOT_FOUND`: the search failure value. */
  const NOT_FOUND: nat := SIZE_MAX

  /** A value of C's `size_t`. */
  type Size = n: nat | n <= SIZE_MAX

  /** Unsigned wrap-around of a `size_t` computation. */
  function Wrap(n: nat): Size {
    n % (SIZE_MAX + 1)
  }

  function Max(a: nat, b: nat): nat {
    if a >= b then a else b
  }

  function Min(a: nat, b: nat): nat {
    if a < b then a else b
  }

  /** Header (two counters) plus content plus terminator, or SIZE_OVERFLOW when
      that sum wraps. The sum wraps exactly for capacities above MAX_CAPACITY. */
  function StructSize(capacity: Size): (r: Size)
    ensures r == SIZE_OVERFLOW <==> capacity > MAX_CAPACITY
    ensures r != SIZE_OVERFLOW ==> r == WORD * 2 + capacity + TERMINATOR_LEN && r > capacity
  {
    var size := Wrap(WORD * 2 + capacity + TERMINATOR_LEN);
    if size <= capacity then SIZE_OVERFLOW else size
  }
}

/** Pointer-width arithmetic shared by both revisions of `memory_pool_c::alloc`. */
module Alignment {

  /** `_get_osBit()` is `sizeof(void*)`, a compile-time constant; the pool is built for
      64-bit targets, where it is 8. */
  const PointerWidth: nat := 8

  /** `adjust_size` of the bump path: 0 when the object size is already a multiple of the
      pointer width, otherwise `(size / width + 1) * width`, the next multiple above it. */
  function AdjustSize(size: nat): (a: nat)
    ensures size % PointerWidth == 0 ==> a == 0
    ensures size % PointerWidth != 0 ==> a % PointerWidth == 0 && size < a < size + PointerWidth
  {
    if size % PointerWidth != 0 then (size / PointerWidth + 1) * PointerWidth else 0
  }

  /** What a bump allocation adds to `_mpool_adjust_byte`: the rounding delta, which is
      exactly the number of bytes that pads the size up to the pointer width. */
  function Padding(size: nat): (p: nat)
    ensures p < PointerWidth
    ensures (size + p) % PointerWidth == 0
    ensures size % PointerWidth == 0 <==> p == 0
  {
    if size % PointerWidth != 0 then AdjustSize(size) - size else 0
  }

  /** The size rounded up to the pointer width: the stride a bump allocation is meant to
      advance by. The current revision advances a misaligned size by more than this and the
      root revision advances an aligned size by nothing (see the two `BumpAdvance`
      functions); this is the corrected definition. */
  function RoundUp(size: nat): (r: nat)
    ensures r % PointerWidth == 0
    ensures size <= r < size + PointerWidth
    ensures size % PointerWidth == 0 ==> r == size
  {
    size + Padding(size)
  }
}

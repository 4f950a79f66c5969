/** Java's 32-bit `int`, as far as the model needs it. */
module JavaInt {

  const MinInt32: int := -0x8000_0000
  const MaxInt32: int := 0x7fff_ffff

  newtype int32 = x: int | -0x8000_0000 <= x <= 0x7fff_ffff

  /** Java's `++x` on an `int`: one more, except that MAX_VALUE wraps to MIN_VALUE. */
  function Increment(x: int32): (r: int32)
    ensures x as int < MaxInt32 ==> r as int == x as int + 1
    ensures x as int == MaxInt32 ==> r as int == MinInt32
  {
    if x == 0x7fff_ffff then -0x8000_0000 else x + 1
  }
}

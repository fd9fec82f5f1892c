/** Machine integers: C's conversions to 32 bits. */
module Machine {

  const TWO_30: int := 0x4000_0000
  const TWO_31: int := 0x8000_0000
  const TWO_32: int := 0x1_0000_0000
  const TWO_64: int := 0x1_0000_0000_0000_0000

  predicate IsInt32(x: int) { -TWO_31 <= x < TWO_31 }

  /** The value a C compiler stores in an int32: two's complement wrap-around. */
  function ToInt32(x: int): (r: int)
    ensures IsInt32(r) && (IsInt32(x) ==> r == x)
  {
    (x + TWO_31) % TWO_32 - TWO_31
  }

  function ToUint32(x: int): nat { x % TWO_32 }
}

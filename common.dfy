/** Machine integers and small wrappers shared by the scheduler, tile and script-environment models. */
module Common {

  /** The range of C++ `uint32_t`. */
  const U32Limit: int := 0x1_0000_0000
  const MaxU32: int := 0xFFFF_FFFF
  /** `std::numeric_limits<uint16_t>::max()`. */
  const MaxU16: int := 0xFFFF

  type U32 = x: int | 0 <= x < 0x1_0000_0000
  type U16 = x: int | 0 <= x < 0x1_0000
  /** C++ `int32_t`. */
  type I32 = x: int | -0x8000_0000 <= x < 0x8000_0000

  /** A pointer that may be null. */
  datatype Option<T> = None | Some(value: T)

  /** Handles standing for `Item*` and `Creature*` pointers: two handles are the same object iff they are equal. */
  type ItemRef = nat
  type CreatureRef = nat

  /** `++x` on a `uint32_t`: the successor, wrapping from the largest value to 0. */
  function Inc32(x: U32): (r: U32)
    ensures x < MaxU32 ==> r == x + 1
    ensures x == MaxU32 ==> r == 0
    ensures r != x
  {
    (x + 1) % U32Limit
  }
}

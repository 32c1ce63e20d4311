/** The 32-bit conversions of the source language, on unbounded integers. */
module Int32 {
  const TWO_32: int := 0x1_0000_0000
  const TWO_31: int := 0x8000_0000

  /** `x >>> 0` */
  function ToUint32(x: int): int {
    x % TWO_32
  }

  /** The signed 32-bit number with the low bits of `x`. */
  function ToInt32(x: int): int {
    if ToUint32(x) >= TWO_31 then ToUint32(x) - TWO_32 else ToUint32(x)
  }

  /** Wrapping takes off whole turns only, and leaves a signed 32-bit number. */
  lemma WrappingIsModular(x: int) returns (turns: int)
    ensures ToInt32(x) == x - turns * 0x1_0000_0000
    ensures -0x8000_0000 <= ToInt32(x) < 0x8000_0000
  {
    turns := if ToUint32(x) >= TWO_31 then x / TWO_32 + 1 else x / TWO_32;
  }

  lemma WholeTurnsWrapAway(x: int, turns: int)
    ensures ToInt32(x + turns * 0x1_0000_0000) == ToInt32(x)
  {
    assert (x + turns * 0x1_0000_0000) % 0x1_0000_0000 == x % 0x1_0000_0000;
  }
}

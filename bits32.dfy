/** Java `int` operations on 32-bit patterns: the signed reading, `>>`, and `Math.abs`. */
module Bits32 {
  import opened JavaInt

  const SIGN_BIT: bv32 := 0x8000_0000

  /** The signed Java `int` a 32-bit pattern stands for. */
  function ToSigned(x: bv32): (r: int32)
    ensures r < 0 <==> x >= SIGN_BIT
    ensures r >= 0 ==> r == x as int
    ensures x == SIGN_BIT ==> r == -TWO_31
    ensures (r - x as int) % TWO_32 == 0
  {
    UnsignedRange(x);
    if x < SIGN_BIT then x as int else x as int - TWO_32
  }

  /** The unsigned reading of a pattern lies below 2^32, and below 2^31 exactly when the sign bit is clear. */
  lemma UnsignedRange(x: bv32)
    ensures 0 <= x as int < TWO_32
    ensures x < SIGN_BIT <==> x as int < TWO_31
  {
  }

  /**
   * Java's `>>` on `int`: an arithmetic shift that fills with the sign bit
   * (Dafny's `>>` on bit-vectors is logical).
   */
  function Sar(x: bv32, k: bv32): (r: bv32)
    requires k < 32
    ensures (r >= SIGN_BIT) == (x >= SIGN_BIT)
    ensures x < SIGN_BIT ==> r == x >> k
    ensures x >= SIGN_BIT ==> r == !((!x) >> k)
  {
    if x < SIGN_BIT then x >> k
    else
      FillIsComplement(x, k);
      (x >> k) | !(0xFFFF_FFFF >> k)
  }

  /** Filling the vacated high bits with ones is shifting the complement and complementing back. */
  lemma FillIsComplement(x: bv32, k: bv32)
    requires k < 32 && x >= SIGN_BIT
    ensures (x >> k) | !(0xFFFF_FFFF >> k) == !((!x) >> k)
    ensures (x >> k) | !(0xFFFF_FFFF >> k) >= SIGN_BIT
  {
  }

  /** The avalanche steps applied after the FNV loop. */
  function Mix(h0: bv32): bv32
  {
    var h1 := h0 + (h0 << 13);
    var h2 := h1 ^ Sar(h1, 7);
    var h3 := h2 + (h2 << 3);
    var h4 := h3 ^ Sar(h3, 17);
    h4 + (h4 << 5)
  }

  /**
   * Java's `Math.abs` on `int`: a negative value is replaced by its two's
   * complement negation, which wraps, so `Integer.MIN_VALUE` stays negative.
   */
  function JavaAbs(x: bv32): (r: bv32)
    ensures x < SIGN_BIT ==> r == x
    ensures x >= SIGN_BIT ==> r + x == 0
    ensures r < SIGN_BIT <==> x != SIGN_BIT
  {
    if x < SIGN_BIT then x else 0 - x
  }
}

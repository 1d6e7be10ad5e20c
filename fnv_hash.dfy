/**
 * The ring hash of the consistent-hash balancer: a 32-bit FNV-1a variant
 * over the UTF-16 code units of a string, followed by a shift/xor/add
 * avalanche and Java's `Math.abs`. All arithmetic is Java `int` arithmetic,
 * modelled on `bv32` so that multiplication and addition wrap.
 */
module FnvHash {
  import opened JavaInt
  import opened Bits32

  /** One UTF-16 code unit: what Java's `charAt` returns. */
  type char16 = x: int | 0 <= x < 0x1_0000

  /** The UTF-16 code units of one character: one unit, or a surrogate pair above U+FFFF. */
  function CodeUnits(c: char): (u: seq<char16>)
    ensures c as int < 0x1_0000 ==> u == [c as int]
    ensures c as int >= 0x1_0000 ==> |u| == 2 && 0xD800 <= u[0] < 0xDC00 <= u[1] < 0xE000
    ensures c as int >= 0x1_0000 ==> 0x1_0000 + (u[0] as int - 0xD800) * 0x400 + (u[1] as int - 0xDC00) == c as int
  {
    var v := c as int;
    if v < 0x1_0000 then [v]
    else [0xD800 + (v - 0x1_0000) / 0x400, 0xDC00 + (v - 0x1_0000) % 0x400]
  }

  /** The string as Java stores it: `length()` is the size of this sequence and `charAt(i)` its i-th element. */
  function Utf16(s: string): (u: seq<char16>)
    ensures |u| >= |s|
  {
    if s == [] then [] else CodeUnits(s[0]) + Utf16(s[1..])
  }

  /** Without characters above U+FFFF, `length()` counts characters and `charAt(i)` is the i-th character. */
  lemma {:induction false} Utf16Bmp(s: string)
    requires forall i | 0 <= i < |s| :: s[i] as int < 0x1_0000
    ensures |Utf16(s)| == |s|
    ensures forall i | 0 <= i < |s| :: Utf16(s)[i] == s[i] as int
  {
    if s != [] {
      Utf16Bmp(s[1..]);
      assert Utf16(s) == [s[0] as int] + Utf16(s[1..]);
    }
  }

  const FNV_PRIME: bv32 := 16777619
  /** `(int) 2166136261L`, the 32-bit FNV offset basis. */
  const FNV_OFFSET: bv32 := 0x811C_9DC5
  /** One round of the FNV loop: xor in the unit, then multiply by the prime, wrapping at 32 bits. */
  function FnvStep(h: bv32, c: char16): bv32
  {
    (h ^ (c as bv32)) * FNV_PRIME
  }

  /** The FNV loop over all the units, from the offset basis. */
  function Fnv(u: seq<char16>): bv32
  {
    if u == [] then FNV_OFFSET else FnvStep(Fnv(u[..|u| - 1]), u[|u| - 1])
  }

  /**
   * The ring position of a string. It is non-negative except for the one
   * string class whose mixed value is `Integer.MIN_VALUE`, which `Math.abs`
   * leaves at -2^31.
   */
  function Hash(s: string): (r: int32)
    ensures r >= 0 <==> Mix(Fnv(Utf16(s))) != SIGN_BIT
    ensures r < 0 ==> r == -TWO_31
  {
    ToSigned(JavaAbs(Mix(Fnv(Utf16(s)))))
  }

  /** The hash computed as the source does it: a loop over the code units, then the mixing steps in place. */
  method GetHash(str: string) returns (hash: int32)
    ensures hash == Hash(str)
  {
    var units := Utf16(str);
    var h := FNV_OFFSET;
    var i := 0;
    while i < |units|
      invariant 0 <= i <= |units|
      invariant h == Fnv(units[..i])
    {
      assert units[..i + 1][..i] == units[..i];
      h := FnvStep(h, units[i]);
      i := i + 1;
    }
    assert units[..i] == units;
    h := Mix(h);
    if h >= SIGN_BIT {
      h := JavaAbs(h);
    }
    hash := ToSigned(h);
  }
}

/**
 The fixed-width integer types of the editor's runtime and the unchecked
 conversions between them. Every integer is an unbounded `int` restricted to
 the range of its width; a narrowing cast keeps the value modulo 2^32, as an
 unchecked cast does.

 Floating-point numbers are kept as 32-bit patterns. Their arithmetic is not
 modelled: the two conversions the editor performs between `float` and
 `uint` are supplied from outside as a `FloatConversions` value.
 */
module Numeric {

  const TWO_32: int := 0x1_0000_0000
  const TWO_31: int := 0x8000_0000

  type Int32 = x: int | -0x8000_0000 <= x < 0x8000_0000
  type UInt32 = x: int | 0 <= x < 0x1_0000_0000
  type Int64 = x: int | -0x8000_0000_0000_0000 <= x < 0x8000_0000_0000_0000
  type UInt64 = x: int | 0 <= x < 0x1_0000_0000_0000_0000

  /** The bit pattern of a 32-bit IEEE float. */
  type Float32 = bv32

  /** Two integers agree on their low 32 bits. */
  predicate SameLow32(a: int, b: int) {
    (a - b) % TWO_32 == 0
  }

  /** The unchecked cast `(uint)x` of any integer: its low 32 bits, unsigned. */
  function ToUInt32(x: int): (r: UInt32)
    ensures SameLow32(r, x)
  {
    x % TWO_32
  }

  /** The unchecked cast `(int)x` of any integer: its low 32 bits, two's complement. */
  function ToInt32(x: int): (r: Int32)
    ensures SameLow32(r, x)
  {
    var low := x % TWO_32;
    if low < TWO_31 then low else low - TWO_32
  }

  /** Two unsigned 32-bit values with the same low 32 bits are equal. */
  lemma SameLow32Unsigned(a: UInt32, b: UInt32)
    requires SameLow32(a, b)
    ensures a == b
  {
  }

  /** Agreement on the low 32 bits is transitive. */
  lemma SameLow32Trans(a: int, b: int, c: int)
    requires SameLow32(a, b) && SameLow32(b, c)
    ensures SameLow32(a, c)
  {
    var k1 := (a - b) / TWO_32;
    var k2 := (b - c) / TWO_32;
    assert a - c == (k1 + k2) * TWO_32;
  }

  /** `(uint)(int)x` gives back every `uint` x. */
  lemma ToUInt32OfToInt32(x: UInt32)
    ensures ToUInt32(ToInt32(x)) == x
  {
    SameLow32Trans(ToUInt32(ToInt32(x)), ToInt32(x), x);
    SameLow32Unsigned(ToUInt32(ToInt32(x)), x);
  }

  /**
   The two float conversions of the editor, left abstract: `truncate` is the
   cast `(uint)f` of a float and `fromUInt` is the cast `(float)u` of a uint.
   */
  datatype FloatConversions = FloatConversions(truncate: Float32 -> UInt32, fromUInt: UInt32 -> Float32)
  {
    /** The float conversion gives `u` back exactly; for the IEEE conversions of the editor, this holds for every u up to 2^24. */
    predicate Exact(u: UInt32) {
      truncate(fromUInt(u)) == u
    }
  }
}

/** The C++ integer types of the lattice header, with the conversions and the
    wrap-around that unsigned arithmetic performs written out. */
module Machine {

  const TWO_32: int := 0x1_0000_0000
  const TWO_31: int := 0x8000_0000

  /** `unsigned`: 32-bit, arithmetic modulo 2^32. */
  type u32 = x: int | 0 <= x < 0x1_0000_0000

  /** `int`: 32-bit two's complement. */
  type i32 = x: int | -0x8000_0000 <= x < 0x8000_0000

  /** The value an unsigned expression takes: its mathematical value modulo 2^32. */
  function Wrap(x: int): (r: u32)
    ensures 0 <= x < TWO_32 ==> r == x
    ensures (x - r) % TWO_32 == 0
  {
    x % TWO_32
  }

  /** Conversion of an `unsigned` argument to an `int` parameter (modular). */
  function ToSigned(u: u32): (r: i32)
    ensures u < TWO_31 ==> r == u
    ensures u >= TWO_31 ==> r < 0
  {
    if u < TWO_31 then u else u - TWO_32
  }

  /** Conversion of an `int` operand to `unsigned`, as the usual arithmetic
      conversions do when an `int` is compared with an `unsigned`. */
  function ToUnsigned(x: i32): (r: u32)
    ensures x >= 0 ==> r == x
    ensures x < 0 ==> r >= TWO_31
  {
    if x >= 0 then x else x + TWO_32
  }

  /** The two conversions are inverse to each other. */
  lemma ConversionRoundTrip(u: u32, x: i32)
    ensures ToUnsigned(ToSigned(u)) == u
    ensures ToSigned(ToUnsigned(x)) == x
  {
  }
}

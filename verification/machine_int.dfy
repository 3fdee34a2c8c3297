/** The C integer conversions the VM primitives perform on Fixnum
    arguments. */
module MachineInt {

  const TwoTo31: int := 0x8000_0000
  const TwoTo32: int := 0x1_0000_0000
  const TwoTo63: int := 0x8000_0000_0000_0000
  const TwoTo64: int := 0x1_0000_0000_0000_0000

  /** Storing a value in a 32-bit C `int`: two's-complement wrap-around. */
  function Int32(x: int): (r: int)
    ensures -TwoTo31 <= r < TwoTo31
    ensures (r - x) % TwoTo32 == 0
  {
    (x + TwoTo31) % TwoTo32 - TwoTo31
  }

  /** The value a 64-bit C `native_int` holds when an operation's exact
      result is `x`: two's-complement wrap-around. */
  function Int64(x: int): (r: int)
    ensures -TwoTo63 <= r < TwoTo63
    ensures (r - x) % TwoTo64 == 0
    ensures -TwoTo63 <= x < TwoTo63 ==> r == x
  {
    (x + TwoTo63) % TwoTo64 - TwoTo63
  }

  /** A C `(unsigned)` cast of a 64-bit value: only the low 32 bits are
      kept. */
  function Unsigned32(x: int): (r: nat)
    ensures r < TwoTo32 && (r - x) % TwoTo32 == 0
    ensures 0 <= x < TwoTo32 ==> r == x
  {
    x % TwoTo32
  }

  /** A value that fits is stored unchanged. */
  lemma {:induction false} Int32Fits(x: int)
    requires -TwoTo31 <= x < TwoTo31
    ensures Int32(x) == x
  {
  }

  /** A sum of two non-negative `int`s that overflows comes out negative. */
  lemma {:induction false} Int32OfUnsigned(x: int)
    requires 0 <= x < TwoTo32
    ensures Int32(x) == if x < TwoTo31 then x else x - TwoTo32
  {
    if x >= TwoTo31 {
      assert x + TwoTo31 == (x - TwoTo32 + TwoTo31) + TwoTo32;
    }
  }
}

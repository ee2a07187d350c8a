/** Failure values for the exceptions the Java code throws, and a result type carrying them. */
module Wrappers {

  /** The exceptions of the modelled code, one constructor per exception class. */
  datatype Failure =
    | IllegalArgument   // IllegalArgumentException
    | ClosedChannel     // ClosedChannelException
    | IOError           // IOException
    | IndexOutOfBounds  // ArrayIndexOutOfBoundsException raised by an array access

  datatype Result<+T> = Ok(value: T) | Err(error: Failure)

  /** A byte by its unsigned value, as `b & 0xFF` reads a Java byte. */
  newtype byte = x: int | 0 <= x < 256
}

/** Java's 32-bit `int`: its bound and the narrowing cast from `long`. */
module JavaInt {

  /** Integer.MAX_VALUE */
  const MAX_INT: int := 0x7fff_ffff

  const TWO_32: int := 0x1_0000_0000

  /** The `(int)` cast: keep the low 32 bits and read them as a two's-complement number. */
  function ToInt(x: int): (r: int)
    ensures -MAX_INT - 1 <= r <= MAX_INT
    ensures (x - r) % TWO_32 == 0
    ensures -MAX_INT - 1 <= x <= MAX_INT ==> r == x
    ensures MAX_INT < x < TWO_32 ==> r == x - TWO_32
  {
    var low := x % TWO_32;
    if low > MAX_INT then low - TWO_32 else low
  }
}

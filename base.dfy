/** Shared vocabulary: optional values, machine integer ranges and timestamps. */
module Base {

  /** A C# nullable value: `None` is `null`. */
  datatype Option<+T> = None | Some(value: T) {
    function GetOr(default: T): T {
      match this
      case Some(v) => v
      case None => default
    }
  }

  /** A value, or the error that stands for the exception the source throws instead. */
  datatype Result<+T, +E> = Ok(value: T) | Err(error: E)

  /** An unsigned 8-bit value, the element type of a .NET `byte[]`. */
  type byte = b: int | 0 <= b < 256

  /** The range of a C# `int` (System.Int32). */
  type int32 = x: int | -0x8000_0000 <= x < 0x8000_0000

  /** The range of a C# `long` (System.Int64). */
  type int64 = x: int | -0x8000_0000_0000_0000 <= x < 0x8000_0000_0000_0000

  /** A `DateTime`, as a tick count; the model never looks inside it. */
  type Timestamp = int

  /** `b` raised to the power `n`, exactly. */
  function Pow(b: nat, n: nat): (r: nat)
    ensures b > 0 ==> r > 0
  {
    if n == 0 then 1 else b * Pow(b, n - 1)
  }
}

/**
 * Value wrappers and fixed-width integers shared by the model: an Option for
 * the C# references that may be null, a Result for operations that throw,
 * and the .NET integer widths the source declares.
 */
module Primitives {

  /** A C# reference that may be null. */
  datatype Option<+T> = None | Some(value: T)

  /** The value an operation returns, or the exception it throws instead. */
  datatype Result<+T, +E> = Success(value: T) | Failure(error: E)

  /** System.Int32. */
  newtype int32 = x: int | -0x8000_0000 <= x < 0x8000_0000

  /** System.UInt16. */
  newtype uint16 = x: int | 0 <= x < 0x1_0000

  /** System.UInt32. */
  newtype uint32 = x: int | 0 <= x < 0x1_0000_0000
}

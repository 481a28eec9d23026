/** Small value types shared by every module: optional values, results with an
    error channel, and the fixed-width integer types of the C# signatures. */
module Basics {

  /** A nullable value (`T?` in C#). */
  datatype Option<+T> = None | Some(value: T)

  /** A value or the exception that replaced it. */
  datatype Result<+T, +E> = Success(value: T) | Failure(error: E)

  /** C# `ushort`. */
  type UInt16 = x: int | 0 <= x < 0x1_0000

  /** C# `byte`. */
  type Byte = x: int | 0 <= x < 0x100

  /** Timestamps and durations are whole seconds; `DateTime.MinValue` is 0. */
  const MinTime: int := 0
  const SecondsPerDay: int := 86400
}

/** Shared vocabulary of the model: fixed-width integers, optional values and
    the exceptions the C# code throws, as values. */
module Common {

  /** An unsigned 8-bit integer (C# `byte`). */
  type Byte = x: int | 0 <= x < 0x100

  /** An unsigned 16-bit integer (C# `ushort`). */
  type UInt16 = x: int | 0 <= x < 0x1_0000

  /** An unsigned 32-bit integer (C# `uint`). */
  type UInt32 = x: int | 0 <= x < 0x1_0000_0000

  /** An unsigned 64-bit integer (C# `ulong`), the ordering key of every interval. */
  type UInt64 = x: int | 0 <= x < 0x1_0000_0000_0000_0000

  /** A value that may be absent: a `TryGetValue` that returns false is `None`. */
  datatype Option<+T> = None | Some(value: T) {
    function GetOr(default: T): T {
      match this
      case Some(v) => v
      case None => default
    }
  }

  /** The exceptions thrown by the core, with the messages the code attaches. */
  datatype Exception =
    | ArgumentException(message: string)
    | InvalidOperationException(message: string)

  /** The result of an operation that either completes or throws. */
  datatype Outcome<+E> = Pass | Fail(error: E)
}

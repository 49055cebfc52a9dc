/** The pieces of the .NET runtime the codec relies on: its fixed-width integer
    types, the exceptions the core can throw, and Option/Result wrappers. */
module Runtime {

  /** System.Byte */
  newtype byte = x: int | 0 <= x < 0x100

  /** System.Int32 */
  newtype int32 = x: int | -0x8000_0000 <= x < 0x8000_0000

  /** System.UInt32 */
  newtype uint32 = x: int | 0 <= x < 0x1_0000_0000

  /** System.UInt64 (Netcode client ids) */
  newtype ulong = x: int | 0 <= x < 0x1_0000_0000_0000_0000

  /** C#'s unchecked `(byte)n`: keeps the low 8 bits (two's complement). */
  function ToByte(n: int): (b: byte)
    ensures 0 <= n < 0x100 ==> b as int == n
    ensures (b as int - n) % 0x100 == 0
  {
    (n % 0x100) as byte
  }

  /** string.GetHashCode: runtime-defined (and randomised per process); only its
      determinism is used. */
  const StringHashCode: string -> int32

  /** The .NET exceptions that operations of the core can throw. */
  datatype Fault =
    | IndexOutOfRange     // an array indexer outside the array
    | ArgumentOutOfRange  // a start index or count outside the array (BitConverter, Encoding)
    | Argument            // a destination too small (Encoding.GetBytes, BitConverter.ToInt32)
    | ArgumentNull        // Buffer.BlockCopy from a null array
    | NullReference       // a member access on a null string, dictionary or list
    | InvalidOperation    // Enumerable.First with no matching element
    | Overflow            // an array allocation with a negative size

  datatype Option<+T> = None | Some(value: T)

  /** The outcome of an operation that may throw: the value, or the exception. */
  datatype Result<+T> = Ok(value: T) | Err(fault: Fault) {
    predicate IsFailure() { Err? }

    function PropagateFailure<U>(): Result<U>
      requires Err?
    {
      Err(fault)
    }

    function Extract(): T
      requires Ok?
    {
      value
    }
  }
}

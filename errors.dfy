/** The exceptions the core raises or lets through, as values. */
module Errors {

  datatype Error =
    | EndOfStream          // System.IO.EndOfStreamException from BinaryReader
    | Overflow             // OverflowException: an array of negative length
    | ArgumentOutOfRange   // a negative count or stream position
    | IndexOutOfRange      // blockOffsets[block.Index] outside the array
    | StreamTooLong        // IOException: a MemoryStream grown past int.MaxValue bytes
    | DuplicateKey         // ArgumentException from SortedList.Add
    | Serialization        // System.Runtime.Serialization.SerializationException
    | BusinessLogic        // Archiver.Core.Exceptions.BusinessLogicException
    | UnknownActionType    // UnknownCompressorActionTypeException

  /** A value, or the exception that stopped its computation. */
  datatype Result<+T> = Success(value: T) | Failure(error: Error)

  /** Normal completion of a `void` method, or the exception it raised. */
  datatype Outcome = Pass | Fail(error: Error)
}

/** Types shared by the storage engine, the log decoder and the inspector. */
module Common {

  /** One byte of a data file. */
  type byte = b: int | 0 <= b < 256

  /** A byte string: file contents, keys and values (Go strings and []byte). */
  type Bytes = seq<byte>

  /** Keys are Go strings, which are byte strings. */
  type Key = Bytes

  /** The range of an `int64`. A Go `int` is 64 bits wide here, so no
      slice or string is longer than MaxInt64 either. */
  const MaxInt64: int := 0x7FFF_FFFF_FFFF_FFFF
  const MinInt64: int := -0x8000_0000_0000_0000

  /** The errors the engine reports. */
  datatype Error =
    | KeyNotFound                       // ErrKeyNotFound
    | FileNotFound(fileId: int)         // "data file %d not found"
    | ReadFailed                        // ReadAt could not fill the buffer
    | FileClosed(fileId: int)           // ReadAt on a closed *os.File
    | CorruptRecord                     // "corrupt record"
    | CorruptValueLength                // "corrupt value length"
    | UnexpectedEof                     // a scan found a truncated key or value
    | ScanFailed(path: string, cause: Error)  // "scan file %s: %w"
    | UnknownOperation(op: string)      // "unknown operation: %s"

  datatype Option<T> = None | Some(value: T)

  datatype Result<T> = Ok(value: T) | Err(error: Error)

  /** The result of an operation that returns only an error. */
  datatype Outcome = Success | Failure(error: Error)
}

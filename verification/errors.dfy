/** The decoder's failures, carried as values instead of panics. */
module Errors {
  import opened LittleEndian

  datatype DecodeError =
      /** The byte range [position, position + length) lies (partly) past the end of the file. */
    | IoFailure(position: nat, length: nat)
      /** The first four header bytes are not "DBPF"; carries the bytes found. */
    | InvalidSignature(found: seq<Byte>)
      /** Index entry `index` could not be read; the whole index is abandoned. */
    | EntryReadFailed(index: nat)
      /** A 1.x header whose index minor version (slot 15) is 0, so `slot15 - 1` underflows. */
    | SubVersionUnderflow

  /** Success with a value, or one of the failures above; usable with `:-`. */
  datatype Result<+T> = Ok(value: T) | Err(error: DecodeError) {
    predicate IsFailure() {
      Err?
    }

    function PropagateFailure<U>(): Result<U>
      requires Err?
    {
      Err(error)
    }

    function Extract(): T
      requires Ok?
    {
      value
    }
  }
}

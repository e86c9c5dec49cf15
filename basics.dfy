/** Value types shared by the whole model: bytes, optional values and the
    concatenation of a list of byte strings (a file built from its chunks). */
module Basics {

  /** One byte of a file's contents. */
  newtype byte = b: int | 0 <= b < 256

  /** A value that may be absent (an omitted argument, a missing upload). */
  datatype Option<T> = None | Some(value: T)

  /** The bytes of `chunks[0]`, then of `chunks[1]`, and so on. */
  function Concat(chunks: seq<seq<byte>>): (r: seq<byte>)
  {
    if chunks == [] then [] else chunks[0] + Concat(chunks[1..])
  }
}

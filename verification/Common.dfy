/** Small datatypes, and a fact about sequences, shared by every part of the model. */
module Common {

  datatype Option<+T> = None | Some(value: T)

  datatype Result<+T, +E> = Ok(value: T) | Err(error: E)

  /** One `u8`; Rust strings and slices are sequences of these. */
  type byte = x: nat | x < 256

  type Bytes = seq<byte>

  lemma Associate<T>(a: seq<T>, b: seq<T>, c: seq<T>)
    ensures (a + b) + c == a + (b + c)
  {
  }
}

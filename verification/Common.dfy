/** Types shared by the models of the individual components. */
module Common {
  newtype byte = x: int | 0 <= x < 256

  datatype Option<+T> = None | Some(value: T)

  datatype Result<+T, +E> = Ok(value: T) | Err(error: E)

  /** SHA-256, modelled as an injective function: distinct byte strings have distinct digests. */
  datatype Digest = Sha256(preimage: seq<byte>)
}

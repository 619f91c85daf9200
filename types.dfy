/** Value types shared by the FF1 model: bytes, byte strings, 16-byte blocks,
    the block cipher interface and the failure-compatible Result type. */
module Types {

  /** One byte, as an integer in [0, 256). */
  type Byte = x: nat | x < 256

  /** A byte string; concatenation is `+`, slicing is `s[i..j]`. */
  type ByteString = seq<Byte>

  /** A 128-bit block, the block size the FF1 parameter block and the
      counter expansion are built around. */
  type Block = s: ByteString | |s| == 16
    witness [0, 0, 0, 0, 0, 0, 0, 0, 0, 0, 0, 0, 0, 0, 0, 0]

  /** CIPH_K(X): a keyed permutation of 16-byte blocks. It is a parameter of
      the model; its internals are not modelled. */
  type BlockCipher = (ByteString, Block) -> Block

  /** The ways a conversion between integers and fixed-length strings fails. */
  datatype Error =
    | InvalidDigit       // a numeral digit is not below the radix
    | EncodingOverflow   // an integer does not fit the requested length

  datatype Result<T> = Ok(value: T) | Err(error: Error)
  {
    predicate IsFailure() {
      Err?
    }

    function PropagateFailure<U>(): Result<U>
      requires Err?
    {
      Err(error)
    }

    function Extract(): T
      requires Ok?
    {
      value
    }
  }
}

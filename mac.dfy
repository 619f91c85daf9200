/** The PRF FF1 calls in step 6ii: CBC-MAC over the block cipher (Algorithm 6
    of NIST SP 800-38G), with a zero initial chaining value and a message made
    of whole 16-byte blocks. */
module Mac {
  import opened Types
  import opened Utils

  const ZeroBlock: Block := [0, 0, 0, 0, 0, 0, 0, 0, 0, 0, 0, 0, 0, 0, 0, 0]

  /** Y_m of Algorithm 6, continuing the chain from Y over the blocks of X:
      Y_j = CIPH_K(Y_{j-1} xor X_j). */
  function Chain(ciph: BlockCipher, key: ByteString, Y: Block, X: ByteString): Block
    requires |X| % 16 == 0
    decreases |X|
  {
    if |X| == 0 then Y else Chain(ciph, key, ciph(key, Xor(Y, X[..16])), X[16..])
  }

  /** PRF(X) = CBC_MAC(CIPH, key, X): defined only on whole blocks, and always
      a single 16-byte block. */
  function Prf(ciph: BlockCipher, key: ByteString, X: ByteString): (R: Block)
    requires |X| % 16 == 0
  {
    Chain(ciph, key, ZeroBlock, X)
  }

  /** Xoring with zero bits leaves a value unchanged. */
  lemma {:induction false} BitXorZero(y: nat, bits: nat)
    requires y < Pow(2, bits)
    ensures BitXor(0, y, bits) == y
  {
    if bits > 0 {
      BitXorZero(y / 2, bits - 1);
    }
  }

  /** On a single block the PRF is the block cipher itself. */
  lemma PrfSingleBlock(ciph: BlockCipher, key: ByteString, X: Block)
    ensures Prf(ciph, key, X) == ciph(key, X)
  {
    forall k | 0 <= k < 16 ensures Xor(ZeroBlock, X)[k] == X[k] {
      BitXorZero(X[k], 8);
    }
    assert X[..16] == X && X[16..] == [];
    assert Xor(ZeroBlock, X) == X;
    assert Chain(ciph, key, ciph(key, X), []) == ciph(key, X);
  }

  /** The PRF of a longer message continues the chain from the PRF of its
      first blocks. */
  lemma {:induction false} PrfAppend(ciph: BlockCipher, key: ByteString, Y: Block, X1: ByteString, X2: ByteString)
    requires |X1| % 16 == 0 && |X2| % 16 == 0
    ensures Chain(ciph, key, Y, X1 + X2) == Chain(ciph, key, Chain(ciph, key, Y, X1), X2)
    decreases |X1|
  {
    if |X1| > 0 {
      assert (X1 + X2)[..16] == X1[..16];
      assert (X1 + X2)[16..] == X1[16..] + X2;
      PrfAppend(ciph, key, ciph(key, Xor(Y, X1[..16])), X1[16..], X2);
    } else {
      assert X1 + X2 == X2;
    }
  }
}

/** FF1.Encrypt (Algorithm 7 of NIST SP 800-38G): a ten-round Feistel network
    over the two halves of a numeral string, keyed through the block cipher.
    The imperative driver `Encrypt` follows the source step by step and is
    proved equal to `EncryptSpec`, a reference definition that checks its
    inputs first and then runs the rounds recursively. */
module FF1 {
  import opened Types
  import opened Utils
  import opened Mac

  /** The number of Feistel rounds; the same constant is written into the
      parameter block P. */
  const RoundCount: nat := 10

  /** 256^3, 256^4 and 256^16: the bounds of the 3-, 4- and 16-byte fields
      that radix, n, t and the expansion counter are written into. */
  const ThreeByteLimit: nat := 0x100_0000
  const FourByteLimit: nat := 0x1_0000_0000
  const BlockLimit: nat := 0x1_0000_0000_0000_0000_0000_0000_0000_0000

  /** The block size of the cipher in bytes, and the width of the counter
      field of the expansion. */
  const BlockSize: nat := 16

  lemma ThreeByteLimitIsPow()
    ensures ThreeByteLimit == Pow(256, 3)
  {
  }

  lemma FourByteLimitIsPow()
    ensures FourByteLimit == Pow(256, 4)
  {
  }

  lemma BlockLimitIsPow()
    ensures BlockLimit == Pow(256, 16)
  {
    FourByteLimitIsPow();
    PowAdd(256, 4, 4);
    PowAdd(256, 8, 8);
  }

  // ---------------------------------------------------------------------
  // Lengths (steps 3 and 4, and the block count of step 6iii)
  // ---------------------------------------------------------------------

  /** b = ceil(ceil(v * log2 radix) / 8), computed exactly: the least number
      of bytes that holds every value below radix^v. */
  function ByteCount(radix: nat, v: nat): (b: nat)
    ensures Pow(radix, v) <= Pow(256, b)
    ensures b == 0 || Pow(256, b - 1) < Pow(radix, v)
  {
    var bits := CeilLog2(Pow(radix, v));
    BitsToBytes(Pow(radix, v), bits, (bits + 7) / 8);
    (bits + 7) / 8
  }

  lemma BitsToBytes(x: nat, bits: nat, b: nat)
    requires x <= Pow(2, bits) && (bits == 0 || Pow(2, bits - 1) < x)
    requires b == (bits + 7) / 8
    ensures x <= Pow(256, b)
    ensures b == 0 || Pow(256, b - 1) < x
  {
    assert Pow(2, 8) == 256;
    PowMul(2, 8, b);
    PowMonotoneExp(2, bits, 8 * b);
    if b > 0 {
      PowMul(2, 8, b - 1);
      PowMonotoneExp(2, 8 * (b - 1), bits - 1);
    }
  }

  /** With a radix that fits the 3-byte field of P, b is at most 3 bytes per
      digit. */
  lemma ByteCountAtMost(radix: nat, v: nat)
    requires radix < ThreeByteLimit
    ensures ByteCount(radix, v) <= 3 * v
  {
    var b := ByteCount(radix, v);
    LeastBytesAtMost(radix, v, b);
  }

  /** Any b below which radix^v does not fit is at most 3 * v. */
  lemma LeastBytesAtMost(radix: nat, v: nat, b: nat)
    requires radix < ThreeByteLimit
    requires b == 0 || Pow(256, b - 1) < Pow(radix, v)
    ensures b <= 3 * v
  {
    if b > 3 * v {
      ThreeByteLimitIsPow();
      PowMonotoneBase(radix, ThreeByteLimit, v);
      PowMul(256, 3, v);
      PowMonotoneExp(256, 3 * v, b - 1);
    }
  }

  /** d = 4 * ceil(b / 4) + 4: the least multiple of 4 that is at least b + 4. */
  function PrfBytes(b: nat): (d: nat)
    ensures d % 4 == 0 && b + 4 <= d <= b + 7
  {
    4 * ((b + 3) / 4) + 4
  }

  /** Numerals that fit 1 to 4 bytes all get d = 8: y = NUM(S) is then a
      64-bit value. */
  lemma PrfBytesSmall(b: nat)
    requires 1 <= b <= 4
    ensures PrfBytes(b) == 8
  {
  }

  /** maxSblock = ceil(d / 16) - 1: the number of enciphered counter blocks
      that follow R when R is expanded to d bytes. */
  function MaxSblock(d: nat): (k: int)
    ensures 16 * k < d <= 16 * (k + 1)
  {
    (d + 15) / 16 - 1
  }

  // ---------------------------------------------------------------------
  // The parameter block P (step 5) and the round message Q (step 6i)
  // ---------------------------------------------------------------------

  /** A one-byte field holds its value as its only byte. */
  lemma OneByteField(x: nat)
    requires x < 256
    ensures Represent(x, 1) == Ok([x])
  {
    NumBytesSingle(Represent(x, 1).value);
  }

  /** P = [1]^1 || [2]^1 || [1]^1 || [radix]^3 || [10]^1 || [u mod 256]^1
      || [n]^4 || [t]^4; it fails with EncodingOverflow when radix, n or t
      does not fit its field (the one-byte fields always fit). */
  function ParameterBlock(radix: nat, u: nat, n: nat, t: nat): (r: Result<ByteString>)
    ensures r.Ok? <==> radix < ThreeByteLimit && n < FourByteLimit && t < FourByteLimit
    ensures r.Err? ==> r.error == EncodingOverflow
    ensures r.Ok? ==> |r.value| == 16
  {
    if radix < ThreeByteLimit && n < FourByteLimit && t < FourByteLimit then
      // The fields are written directly; ParameterBlockRepresents proves this
      // equal to joining the eight represent calls.
      var header: ByteString := [1, 2, 1];
      var roundsAndU: ByteString := [RoundCount, Mod(u, 256)];
      var radixField, nField, tField := Bytes(radix, 3), Bytes(n, 4), Bytes(t, 4);
      var P := header + radixField + roundsAndU + nField + tField;
      Ok(P)
    else
      Err(EncodingOverflow)
  }

  /** The layout of P: the constant header, radix in three bytes, the round
      count, u mod 256, then n and t in four bytes each. */
  lemma ParameterBlockLayout(radix: nat, u: nat, n: nat, t: nat)
    requires ParameterBlock(radix, u, n, t).Ok?
    ensures var P := ParameterBlock(radix, u, n, t).value;
      && P[0] == 1 && P[1] == 2 && P[2] == 1
      && NumBytes(P[3..6]) == radix
      && P[6] == RoundCount && P[7] == u % 256
      && NumBytes(P[8..12]) == n && NumBytes(P[12..16]) == t
  {
    ParameterBlockConstants(radix, u, n, t);
    ParameterBlockFields(radix, u, n, t);
  }

  /** P as the eight `represent` fields joined, the first field that does
      not fit deciding the error; represent(1, inBytes: 1), which P holds
      twice, is computed once. */
  lemma ParameterBlockRepresents(radix: nat, u: nat, n: nat, t: nat)
    ensures ParameterBlock(radix, u, n, t) ==
      (var one :- Represent(1, 1);
       var two :- Represent(2, 1);
       var radixField :- Represent(radix, 3);
       var rounds :- Represent(RoundCount, 1);
       var uField :- Represent(Mod(u, 256), 1);
       var nField :- Represent(n, 4);
       var tField :- Represent(t, 4);
       Ok(one + two + one + radixField + rounds + uField + nField + tField))
  {
    OneByteField(1);
    OneByteField(2);
    OneByteField(RoundCount);
    OneByteField(Mod(u, 256));
    ThreeByteLimitIsPow();
    FourByteLimitIsPow();
    if radix < ThreeByteLimit && n < FourByteLimit && t < FourByteLimit {
      assert Represent(radix, 3) == Ok(Bytes(radix, 3));
      assert Represent(n, 4) == Ok(Bytes(n, 4));
      assert Represent(t, 4) == Ok(Bytes(t, 4));
      var header: ByteString := [1, 2, 1];
      var roundsAndU: ByteString := [RoundCount, Mod(u, 256)];
      assert header == [1] + [2] + [1];
      assert roundsAndU == [RoundCount] + [Mod(u, 256)];
      var x, y, z := Bytes(radix, 3), Bytes(n, 4), Bytes(t, 4);
      var one, two, rounds, uField: ByteString := [1], [2], [RoundCount], [Mod(u, 256)];
      calc {
        one + two + one + x + rounds + uField + y + z;
        (one + two + one) + x + (rounds + uField) + y + z;
        header + x + roundsAndU + y + z;
      }
    }
  }

  /** The one-byte fields of P. */
  lemma ParameterBlockConstants(radix: nat, u: nat, n: nat, t: nat)
    requires ParameterBlock(radix, u, n, t).Ok?
    ensures var P := ParameterBlock(radix, u, n, t).value;
      && P[0] == 1 && P[1] == 2 && P[2] == 1
      && P[6] == RoundCount && P[7] == u % 256
  {
    var header: ByteString := [1, 2, 1];
    var roundsAndU: ByteString := [RoundCount, Mod(u, 256)];
    FieldBytes(header, Bytes(radix, 3), roundsAndU, Bytes(n, 4) + Bytes(t, 4));
  }

  /** The multi-byte fields of P hold radix, n and t. */
  lemma ParameterBlockFields(radix: nat, u: nat, n: nat, t: nat)
    requires ParameterBlock(radix, u, n, t).Ok?
    ensures var P := ParameterBlock(radix, u, n, t).value;
      && NumBytes(P[3..6]) == radix
      && NumBytes(P[8..12]) == n && NumBytes(P[12..16]) == t
  {
    var header: ByteString := [1, 2, 1];
    var roundsAndU: ByteString := [RoundCount, Mod(u, 256)];
    ThreeByteLimitIsPow();
    FourByteLimitIsPow();
    BytesValue(radix, 3);
    BytesValue(n, 4);
    BytesValue(t, 4);
    FieldSlices(header, Bytes(radix, 3), roundsAndU, Bytes(n, 4), Bytes(t, 4));
  }

  /** Where the one-byte fields of P sit. */
  lemma FieldBytes(h: ByteString, x: ByteString, m: ByteString, rest: ByteString)
    requires |h| == 3 && |x| == 3 && |m| == 2
    ensures var P := h + x + m + rest;
      P[0] == h[0] && P[1] == h[1] && P[2] == h[2] && P[6] == m[0] && P[7] == m[1]
  {
  }

  /** Where each field of P sits. */
  lemma FieldSlices(h: ByteString, x: ByteString, m: ByteString, y: ByteString, z: ByteString)
    requires |h| == 3 && |x| == 3 && |m| == 2 && |y| == 4 && |z| == 4
    ensures var P := h + x + m + y + z;
      P[..3] == h && P[3..6] == x && P[6..8] == m && P[8..12] == y && P[12..16] == z
  {
  }

  /** The zero padding of Q: mod(-t-b-1, 16) bytes, so that P || Q is a
      whole number of 16-byte blocks. */
  function Pad(t: nat, b: nat): (pad: nat)
    ensures pad < 16
    ensures (t + pad + 1 + b) % 16 == 0
  {
    var w: int := t + b + 1;
    var pad := Mod(-w, 16);
    assert w + pad == -(-w - pad);
    pad
  }

  /** Q = T || [0]^pad || [i]^1 || [NUM_radix(B)]^b; it fails when the round
      index or the numeral value overflows its field. */
  function RoundMessage(T: ByteString, i: nat, numB: nat, b: nat): (r: Result<ByteString>)
    ensures r.Ok? <==> i < 256 && numB < Pow(256, b)
    ensures r.Err? ==> r.error == EncodingOverflow
    ensures r.Ok? ==> |r.value| == |T| + Pad(|T|, b) + 1 + b
  {
    if i < 256 && numB < Pow(256, b) then
      var zeros := Bytes(0, Pad(|T|, b));
      var index: ByteString := [i];
      var numeral := Bytes(numB, b);
      Ok(T + zeros + index + numeral)
    else
      Err(EncodingOverflow)
  }

  /** Q as step 6i builds it: the tweak followed by the three `represent`
      fields, the first field that does not fit deciding the error. */
  lemma RoundMessageRepresents(T: ByteString, i: nat, numB: nat, b: nat)
    ensures RoundMessage(T, i, numB, b) ==
      (var zeros :- Represent(0, Pad(|T|, b));
       var index :- Represent(i, 1);
       var numeral :- Represent(numB, b);
       Ok(T + zeros + index + numeral))
  {
    if i < 256 {
      OneByteField(i);
    } else {
      assert Pow(256, 1) == 256;
    }
  }

  /** Q is a whole number of blocks, so P || Q is too. */
  lemma RoundMessageAligned(T: ByteString, i: nat, numB: nat, b: nat)
    requires RoundMessage(T, i, numB, b).Ok?
    ensures |RoundMessage(T, i, numB, b).value| % 16 == 0
  {
    var t, pad := |T|, Pad(|T|, b);
    assert (t + pad + 1 + b) % 16 == 0;
  }

  /** The layout of Q: the tweak, pad zero bytes, the round index, then
      NUM_radix(B) in b bytes. */
  lemma RoundMessageLayout(T: ByteString, i: nat, numB: nat, b: nat)
    requires RoundMessage(T, i, numB, b).Ok?
    ensures var Q := RoundMessage(T, i, numB, b).value;
      && Q[..|T|] == T
      && (forall k :: |T| <= k < |T| + Pad(|T|, b) ==> Q[k] == 0)
      && Q[|T| + Pad(|T|, b)] == i
      && NumBytes(Q[|T| + Pad(|T|, b) + 1..]) == numB
  {
    var zeros := Bytes(0, Pad(|T|, b));
    BytesValue(0, Pad(|T|, b));
    BytesValue(numB, b);
    NumBytesZero(zeros);
    MessageSlices(T, zeros, [i], Bytes(numB, b));
  }

  /** Where each part of Q sits. */
  lemma MessageSlices(T: ByteString, zeros: ByteString, index: ByteString, numeral: ByteString)
    requires |index| == 1
    ensures var Q := T + zeros + index + numeral;
      && Q[..|T|] == T
      && (forall k :: |T| <= k < |T| + |zeros| ==> Q[k] == zeros[k - |T|])
      && Q[|T| + |zeros|] == index[0]
      && Q[|T| + |zeros| + 1..] == numeral
  {
  }

  /** Messages of different rounds differ, in their round index byte. */
  lemma RoundMessagesDiffer(T: ByteString, i: nat, j: nat, x: nat, y: nat, b: nat)
    requires i != j
    requires RoundMessage(T, i, x, b).Ok? && RoundMessage(T, j, y, b).Ok?
    ensures RoundMessage(T, i, x, b).value != RoundMessage(T, j, y, b).value
  {
    RoundMessageLayout(T, i, x, b);
    RoundMessageLayout(T, j, y, b);
  }

  // ---------------------------------------------------------------------
  // The expansion of R to d bytes (step 6iii)
  // ---------------------------------------------------------------------

  /** CIPH_K(R xor [j]^16): the block that counter j contributes to S. The
      expansion only uses counters below 256^16, where [j]^16 is exact. */
  function CounterBlock(ciph: BlockCipher, key: ByteString, R: Block, j: nat): Block {
    ciph(key, Xor(R, Bytes(j, BlockSize)))
  }

  /** The map j => CIPH_K(R xor [j]^16) over the counters. */
  function CounterBlockOf(ciph: BlockCipher, key: ByteString, R: Block): nat -> Block {
    j => CounterBlock(ciph, key, R, j)
  }

  /** For a counter below 256^16, block j of the expansion enciphers
      R xor represent(j, inBytes: 16), as step 6iii builds it. */
  lemma CounterBlockRepresents(ciph: BlockCipher, key: ByteString, R: Block, j: nat)
    requires j < BlockLimit
    ensures Represent(j, BlockSize).Ok?
    ensures CounterBlockOf(ciph, key, R)(j) == ciph(key, Xor(R, Represent(j, BlockSize).value))
  {
    BlockLimitIsPow();
  }

  /** Distinct counters below 256^16 give distinct inputs to the cipher. */
  lemma CounterInputsDiffer(R: Block, j1: nat, j2: nat)
    requires j1 < BlockLimit && j2 < BlockLimit && j1 != j2
    ensures Xor(R, Bytes(j1, BlockSize)) != Xor(R, Bytes(j2, BlockSize))
  {
    BlockLimitIsPow();
    BytesValue(j1, BlockSize);
    BytesValue(j2, BlockSize);
    if Xor(R, Bytes(j1, BlockSize)) == Xor(R, Bytes(j2, BlockSize)) {
      XorCancel(Bytes(j1, BlockSize), R);
      XorCancel(Bytes(j2, BlockSize), R);
      XorCommutes(R, Bytes(j1, BlockSize));
      XorCommutes(R, Bytes(j2, BlockSize));
    }
  }

  /** blockOf(1) || ... || blockOf(count): a `map` over 1...count joined by
      `reduce([], ||)`. */
  function Stream(blockOf: nat -> Block, count: nat): (T: ByteString)
    ensures |T| == 16 * count
  {
    if count == 0 then [] else Stream(blockOf, count - 1) + blockOf(count)
  }

  /** Byte 16 * p + r of the stream is byte r of block p + 1. */
  lemma {:induction false} StreamIndex(blockOf: nat -> Block, count: nat, p: nat, r: nat)
    requires p < count && r < 16
    ensures Stream(blockOf, count)[16 * p + r] == blockOf(p + 1)[r]
    decreases count
  {
    if p < count - 1 {
      StreamIndex(blockOf, count - 1, p, r);
    }
  }

  /** Past the leading block R, byte k of R || tail is byte k - 16 of tail. */
  lemma AfterFirstBlock(R: Block, tail: ByteString, k: nat)
    requires 16 <= k < 16 + |tail|
    ensures (R + tail)[k] == tail[k - 16]
  {
  }

  /** S_whole: R followed by the counter blocks 1 to maxSblock when
      maxSblock >= 1, and R alone otherwise. */
  function WholeS(ciph: BlockCipher, key: ByteString, R: Block, maxSblock: int): (W: ByteString)
    ensures |W| == 16 * (if maxSblock >= 1 then maxSblock + 1 else 1)
  {
    if maxSblock >= 1 then R + Stream(CounterBlockOf(ciph, key, R), maxSblock) else R
  }

  /** S: the first d bytes of S_whole; it fails when maxSblock does not fit
      in 16 bytes. */
  function ExpandS(ciph: BlockCipher, key: ByteString, R: Block, d: nat): (r: Result<ByteString>)
    ensures r.Ok? <==> MaxSblock(d) < BlockLimit
    ensures r.Err? ==> r.error == EncodingOverflow
    ensures r.Ok? ==> |r.value| == d
    ensures r.Ok? && d <= 16 ==> r.value == R[..d]
  {
    var maxSblock := MaxSblock(d);
    if maxSblock >= BlockLimit then
      Err(EncodingOverflow)
    else
      Ok(WholeS(ciph, key, R, maxSblock)[..d])
  }

  /** Byte k of S is byte k of R for k < 16 and otherwise byte k mod 16 of
      the block of counter k / 16, a counter between 1 and maxSblock. */
  lemma ExpandSBytes(ciph: BlockCipher, key: ByteString, R: Block, d: nat, k: nat)
    requires ExpandS(ciph, key, R, d).Ok? && k < d
    ensures k < 16 ==> ExpandS(ciph, key, R, d).value[k] == R[k]
    ensures 16 <= k ==>
      && 1 <= k / 16 <= MaxSblock(d)
      && ExpandS(ciph, key, R, d).value[k] == CounterBlock(ciph, key, R, k / 16)[k % 16]
  {
    var maxSblock := MaxSblock(d);
    var W := WholeS(ciph, key, R, maxSblock);
    assert ExpandS(ciph, key, R, d).value[k] == W[k];
    WholeSByte(ciph, key, R, maxSblock, k);
  }

  /** Byte k of S_whole is byte k of R for k < 16 and otherwise byte k mod 16
      of the block of counter k / 16. */
  lemma WholeSByte(ciph: BlockCipher, key: ByteString, R: Block, maxSblock: int, k: nat)
    requires k < 16 * (maxSblock + 1)
    ensures k < 16 ==> WholeS(ciph, key, R, maxSblock)[k] == R[k]
    ensures 16 <= k ==>
      && 1 <= k / 16 <= maxSblock
      && WholeS(ciph, key, R, maxSblock)[k] == CounterBlock(ciph, key, R, k / 16)[k % 16]
  {
    if 16 <= k {
      CounterByte(ciph, key, R, maxSblock, k);
    }
  }

  /** Byte k >= 16 of R || CIPH_K(R xor [1]^16) || ... is byte k mod 16 of
      the block of counter k / 16. */
  lemma CounterByte(ciph: BlockCipher, key: ByteString, R: Block, maxSblock: nat, k: nat)
    requires 16 <= k < 16 * (maxSblock + 1)
    ensures 1 <= k / 16 <= maxSblock
    ensures (R + Stream(CounterBlockOf(ciph, key, R), maxSblock))[k] == CounterBlock(ciph, key, R, k / 16)[k % 16]
  {
    var q, r := k / 16, k % 16;
    var p := q - 1;
    assert 16 * p + r == k - 16 && p < maxSblock;
    AfterFirstBlock(R, Stream(CounterBlockOf(ciph, key, R), maxSblock), k);
    StreamIndex(CounterBlockOf(ciph, key, R), maxSblock, p, r);
  }

  // ---------------------------------------------------------------------
  // The rounds, as a reference definition
  // ---------------------------------------------------------------------

  /** The values fixed before the rounds start (steps 1 to 5). */
  datatype Setup = Setup(ciph: BlockCipher, key: ByteString, radix: nat, tweak: ByteString,
                         u: nat, v: nat, b: nat, d: nat, P: ByteString)
  {
    /** What the rounds rely on: halves that differ by at most one digit, a
        b-byte field that holds every v-digit numeral, counters of the
        expansion that fit in 16 bytes, and a one-block P. */
    ghost predicate Valid() {
      && 1 <= radix
      && (u == v || u + 1 == v)
      && Pow(radix, v) <= Pow(256, b)
      && MaxSblock(d) < BlockLimit
      && |P| == 16
    }

    /** A and B as step 2 splits a valid X: numerals of u and v digits. */
    ghost predicate Halves(A: seq<nat>, B: seq<nat>) {
      |A| == u && |B| == v && IsNumeral(A, radix) && IsNumeral(B, radix)
    }

    /** m of round i (step 6v): u on even rounds, v on odd ones. */
    function M(i: nat): nat {
      if i % 2 == 0 then u else v
    }
  }

  /** m alternates between u and v: rounds two apart use the same m, and
      two consecutive rounds together use u + v = n digits. */
  lemma MAlternates(s: Setup, i: nat)
    ensures s.M(i + 2) == s.M(i)
    ensures s.M(i) + s.M(i + 1) == s.u + s.v
  {
  }

  /** Steps 1 to 5 yield a valid setup whenever P can be built. */
  lemma SetupValid(s: Setup, n: nat)
    requires 1 <= s.radix && s.u == n / 2 && s.v == n - n / 2
    requires s.b == ByteCount(s.radix, s.v) && s.d == PrfBytes(s.b)
    requires ParameterBlock(s.radix, s.u, n, |s.tweak|) == Ok(s.P)
    ensures s.Valid()
  {
    ByteCountAtMost(s.radix, s.v);
    assert MaxSblock(s.d) < s.b + 7 <= 3 * s.v + 7 && s.v <= n < FourByteLimit;
  }

  /** NUM_radix of a half never overflows its b-byte field in Q. */
  lemma NumFits(s: Setup, B: seq<nat>)
    requires s.Valid() && IsNumeral(B, s.radix) && |B| <= s.v
    ensures NumRadix(B, s.radix) < Pow(256, s.b)
  {
    NumBound(B, s.radix);
    PowMonotoneExp(s.radix, |B|, s.v);
  }

  /** A one-block P followed by whole blocks Q is whole blocks. */
  lemma BlockAligned(P: ByteString, Q: ByteString)
    requires |P| == 16 && |Q| % 16 == 0
    ensures |P + Q| % 16 == 0
  {
  }

  /** R (steps 6i and 6ii): PRF(P || Q) for the Q of round i. */
  function RoundBlock(s: Setup, i: nat, numB: nat): (R: Block)
    requires s.Valid() && i < RoundCount && numB < Pow(256, s.b)
  {
    var Q := RoundMessage(s.tweak, i, numB, s.b).value;
    RoundMessageAligned(s.tweak, i, numB, s.b);
    BlockAligned(s.P, Q);
    Prf(s.ciph, s.key, s.P + Q)
  }

  /** R continues the CBC-MAC chain from PRF(P): the chaining value after P
      is the same in every round. */
  lemma RoundBlockChains(s: Setup, i: nat, numB: nat, Q: ByteString)
    requires s.Valid() && i < RoundCount && numB < Pow(256, s.b)
    requires RoundMessage(s.tweak, i, numB, s.b) == Ok(Q)
    ensures |Q| % 16 == 0
    ensures RoundBlock(s, i, numB) == Chain(s.ciph, s.key, Prf(s.ciph, s.key, s.P), Q)
  {
    RoundMessageAligned(s.tweak, i, numB, s.b);
    PrfAppend(s.ciph, s.key, ZeroBlock, s.P, Q);
  }

  /** y (steps 6iii and 6iv): NUM(S) for the S that round i derives from B. */
  function RoundValue(s: Setup, i: nat, B: seq<nat>): (y: nat)
    requires s.Valid() && i < RoundCount
    requires IsNumeral(B, s.radix) && |B| <= s.v
    ensures y < Pow(256, s.d)
  {
    NumFits(s, B);
    var R := RoundBlock(s, i, NumRadix(B, s.radix));
    NumBytes(ExpandS(s.ciph, s.key, R, s.d).value)
  }

  /** C (steps 6vi and 6vii): the m-digit numeral of (NUM_radix(A) + y) mod
      radix^m. */
  function AddToNumeral(radix: nat, m: nat, A: seq<nat>, y: nat): (C: seq<nat>)
    requires radix >= 1 && |A| == m
    ensures |C| == m && IsNumeral(C, radix)
    ensures NumRadix(C, radix) == Mod(NumRadix(A, radix) + y, Pow(radix, m))
  {
    var c := Mod(NumRadix(A, radix) + y, Pow(radix, m));
    DivModUnique(c, Pow(radix, m), 0, c);
    StrRadix(c, radix, m)
  }

  /** Steps 6vi and 6vii as FF1.swift computes them, str(num: c, ...) of
      c = (num(A) + y) mod radix^m, always succeed and give C. */
  lemma AddToNumeralStr(radix: nat, m: nat, A: seq<nat>, numA: nat, y: nat)
    requires radix >= 1 && |A| == m && numA == NumRadix(A, radix)
    ensures Str(Mod(numA + y, Pow(radix, m)), radix, m) == Ok(AddToNumeral(radix, m, A, y))
  {
    var c := Mod(numA + y, Pow(radix, m));
    DivModUnique(c, Pow(radix, m), 0, c);
  }

  /** For a fixed y, distinct numerals A give distinct C: the addition modulo
      radix^m can be undone. */
  lemma AddToNumeralInjective(radix: nat, m: nat, A1: seq<nat>, A2: seq<nat>, y: nat)
    requires radix >= 1 && |A1| == m && |A2| == m
    requires IsNumeral(A1, radix) && IsNumeral(A2, radix)
    requires AddToNumeral(radix, m, A1, y) == AddToNumeral(radix, m, A2, y)
    ensures A1 == A2
  {
    NumBound(A1, radix);
    NumBound(A2, radix);
    ModAddCancel(NumRadix(A1, radix), NumRadix(A2, radix), y, Pow(radix, m));
    StrNumRadix(A1, radix);
    StrNumRadix(A2, radix);
  }

  lemma ModAddCancel(a1: nat, a2: nat, y: nat, p: nat)
    requires 0 < p && a1 < p && a2 < p
    requires (a1 + y) % p == (a2 + y) % p
    ensures a1 == a2
  {
    var q1, q2 := (a1 + y) / p, (a2 + y) / p;
    assert a1 - a2 == (q1 - q2) * p;
    if q1 - q2 >= 1 {
      MulMonotone(1, q1 - q2, p);
    } else if q2 - q1 >= 1 {
      MulMonotone(1, q2 - q1, p);
    }
  }

  /** The halves after k rounds (step 6 run k times from A0 and B0): each
      round shifts B into A and puts the new numeral C into B. */
  function Rounds(s: Setup, k: nat, A0: seq<nat>, B0: seq<nat>): (AB: (seq<nat>, seq<nat>))
    requires s.Valid() && k <= RoundCount
    requires s.Halves(A0, B0)
    ensures |AB.0| == s.M(k) && |AB.1| == s.M(k + 1)
    ensures IsNumeral(AB.0, s.radix) && IsNumeral(AB.1, s.radix)
    decreases k
  {
    if k == 0 then (A0, B0)
    else
      var AB := Rounds(s, k - 1, A0, B0);
      MAlternates(s, k - 1);
      (AB.1, AddToNumeral(s.radix, s.M(k - 1), AB.0, RoundValue(s, k - 1, AB.1)))
  }

  /** Round k + 1 takes the halves after round k to (B, C). */
  lemma RoundsNext(s: Setup, k: nat, A0: seq<nat>, B0: seq<nat>)
    requires s.Valid() && k < RoundCount
    requires s.Halves(A0, B0)
    ensures var AB := Rounds(s, k, A0, B0);
      Rounds(s, k + 1, A0, B0) == (AB.1, AddToNumeral(s.radix, s.M(k), AB.0, RoundValue(s, k, AB.1)))
  {
  }

  /** The y that the driver derives from B through Q, R and S is the y of
      the reference rounds. */
  lemma DriverRound(s: Setup, i: nat, B: seq<nat>, Q: ByteString, R: Block)
    requires s.Valid() && i < RoundCount
    requires |B| <= s.v && IsNumeral(B, s.radix)
    requires RoundMessage(s.tweak, i, NumRadix(B, s.radix), s.b) == Ok(Q)
    requires |s.P + Q| % 16 == 0 && R == Prf(s.ciph, s.key, s.P + Q)
    ensures ExpandS(s.ciph, s.key, R, s.d).Ok?
    ensures RoundValue(s, i, B) == NumBytes(ExpandS(s.ciph, s.key, R, s.d).value)
  {
    NumFits(s, B);
  }

  /** One round maps distinct halves to distinct halves: B is kept and A is
      recovered from C by subtracting y modulo radix^m. */
  lemma RoundStepInjective(s: Setup, k: nat, A1: seq<nat>, B1: seq<nat>, A2: seq<nat>, B2: seq<nat>)
    requires s.Valid() && k < RoundCount
    requires s.Halves(A1, B1) && s.Halves(A2, B2)
    requires Rounds(s, k + 1, A1, B1) == Rounds(s, k + 1, A2, B2)
    ensures Rounds(s, k, A1, B1) == Rounds(s, k, A2, B2)
  {
    RoundsNext(s, k, A1, B1);
    RoundsNext(s, k, A2, B2);
    var AB1, AB2 := Rounds(s, k, A1, B1), Rounds(s, k, A2, B2);
    AddToNumeralInjective(s.radix, s.M(k), AB1.0, AB2.0, RoundValue(s, k, AB1.1));
  }

  /** Distinct starting halves stay distinct through any number of rounds. */
  lemma {:induction false} RoundsInjective(s: Setup, k: nat, A1: seq<nat>, B1: seq<nat>, A2: seq<nat>, B2: seq<nat>)
    requires s.Valid() && k <= RoundCount
    requires s.Halves(A1, B1) && s.Halves(A2, B2)
    requires Rounds(s, k, A1, B1) == Rounds(s, k, A2, B2)
    ensures A1 == A2 && B1 == B2
    decreases k
  {
    if k > 0 {
      var j := k - 1;
      assert j + 1 == k;
      RoundStepInjective(s, j, A1, B1, A2, B2);
      RoundsInjective(s, j, A1, B1, A2, B2);
    }
  }

  /** Steps 2 and 6 to 7 under a valid setup: split X after u digits, run
      the ten rounds and join the halves. */
  function Feistel(s: Setup, X: seq<nat>): (Y: seq<nat>)
    requires s.Valid() && |X| == s.u + s.v && IsNumeral(X, s.radix)
    ensures |Y| == |X| && IsNumeral(Y, s.radix)
  {
    SplitJoin(X, s.u);
    NumeralAppend(X[..s.u], X[s.u..], s.radix);
    var (A, B) := Rounds(s, RoundCount, X[..s.u], X[s.u..]);
    NumeralAppend(A, B, s.radix);
    A + B
  }

  lemma SplitJoin(X: seq<nat>, u: nat)
    requires u <= |X|
    ensures X[..u] + X[u..] == X
  {
  }

  lemma JoinCancel(A1: seq<nat>, B1: seq<nat>, A2: seq<nat>, B2: seq<nat>)
    requires |A1| == |A2| && A1 + B1 == A2 + B2
    ensures A1 == A2 && B1 == B2
  {
    assert A1 == (A1 + B1)[..|A1|] && A2 == (A2 + B2)[..|A1|];
    assert B1 == (A1 + B1)[|A1|..] && B2 == (A2 + B2)[|A1|..];
  }

  /** Distinct inputs give distinct outputs. */
  lemma FeistelInjective(s: Setup, X1: seq<nat>, X2: seq<nat>)
    requires s.Valid()
    requires |X1| == s.u + s.v && IsNumeral(X1, s.radix)
    requires |X2| == s.u + s.v && IsNumeral(X2, s.radix)
    requires Feistel(s, X1) == Feistel(s, X2)
    ensures X1 == X2
  {
    var u := s.u;
    SplitJoin(X1, u);
    SplitJoin(X2, u);
    NumeralAppend(X1[..u], X1[u..], s.radix);
    NumeralAppend(X2[..u], X2[u..], s.radix);
    var AB1 := Rounds(s, RoundCount, X1[..u], X1[u..]);
    var AB2 := Rounds(s, RoundCount, X2[..u], X2[u..]);
    JoinCancel(AB1.0, AB1.1, AB2.0, AB2.1);
    RoundsInjective(s, RoundCount, X1[..u], X1[u..], X2[..u], X2[u..]);
  }

  /** The setup steps 1 to 5 derive from the inputs. */
  function MakeSetup(ciph: BlockCipher, key: ByteString, radix: nat, n: nat, T: ByteString, P: ByteString): (s: Setup)
    requires 1 <= radix && ParameterBlock(radix, n / 2, n, |T|) == Ok(P)
    ensures s.Valid() && s.u + s.v == n
  {
    var u := n / 2;
    var v := n - u;
    var b := ByteCount(radix, v);
    var s := Setup(ciph, key, radix, T, u, v, b, PrfBytes(b), P);
    SetupValid(s, n);
    s
  }

  /** FF1.Encrypt as a reference: the field widths of P are checked first
      (EncodingOverflow), then the digits (InvalidDigit), then the ten rounds
      run and A || B is returned. */
  function EncryptSpec(ciph: BlockCipher, key: ByteString, radix: nat, X: seq<nat>, T: ByteString): (r: Result<seq<nat>>)
    requires radix >= 1
    ensures r.Ok? <==> radix < ThreeByteLimit && |X| < FourByteLimit && |T| < FourByteLimit && IsNumeral(X, radix)
    ensures r.Err? ==> r.error == if radix < ThreeByteLimit && |X| < FourByteLimit && |T| < FourByteLimit
                                 then InvalidDigit else EncodingOverflow
    ensures r.Ok? ==> |r.value| == |X| && IsNumeral(r.value, radix)
  {
    var n := |X|;
    match ParameterBlock(radix, n / 2, n, |T|)
    case Err(e) => Err(e)
    case Ok(P) =>
      if !IsNumeral(X, radix) then Err(InvalidDigit)
      else Ok(Feistel(MakeSetup(ciph, key, radix, n, T, P), X))
  }

  /** Under one key and tweak, FF1 maps distinct plaintexts to distinct
      ciphertexts. */
  lemma EncryptInjective(ciph: BlockCipher, key: ByteString, radix: nat, X1: seq<nat>, X2: seq<nat>, T: ByteString)
    requires radix >= 1
    requires EncryptSpec(ciph, key, radix, X1, T).Ok?
    requires EncryptSpec(ciph, key, radix, X2, T) == EncryptSpec(ciph, key, radix, X1, T)
    ensures X1 == X2
  {
    var n := |X1|;
    assert |X2| == n;
    var P := ParameterBlock(radix, n / 2, n, |T|).value;
    FeistelInjective(MakeSetup(ciph, key, radix, n, T, P), X1, X2);
  }

  // ---------------------------------------------------------------------
  // The round driver
  // ---------------------------------------------------------------------

  /** Steps 6i to 6vii of round i: from B build Q, R, S and y, then the new
      half C from A. */
  method Round(s: Setup, i: nat, A: seq<nat>, B: seq<nat>) returns (C: seq<nat>)
    requires s.Valid() && i < RoundCount
    requires |A| == s.M(i) && |B| <= s.v
    requires IsNumeral(A, s.radix) && IsNumeral(B, s.radix)
    ensures C == AddToNumeral(s.radix, s.M(i), A, RoundValue(s, i, B))
  {
    NumFits(s, B);
    var numB := Num(B, s.radix).value;
    var Q := RoundMessage(s.tweak, i, numB, s.b).value;
    RoundMessageAligned(s.tweak, i, numB, s.b);
    BlockAligned(s.P, Q);
    var R := Prf(s.ciph, s.key, s.P + Q);
    DriverRound(s, i, B, Q, R);
    var S := ExpandS(s.ciph, s.key, R, s.d).value;
    var y := NumBytes(S);
    var m := s.M(i);
    var numA := Num(A, s.radix).value;
    var c := Mod(numA + y, Pow(s.radix, m));
    AddToNumeralStr(s.radix, m, A, numA, y);
    C := Str(c, s.radix, m).value;
  }

  /** Step 6: the ten rounds, each replacing (A, B) by (B, C). */
  method RunRounds(s: Setup, A0: seq<nat>, B0: seq<nat>) returns (A: seq<nat>, B: seq<nat>)
    requires s.Valid()
    requires s.Halves(A0, B0)
    ensures (A, B) == Rounds(s, RoundCount, A0, B0)
  {
    A, B := A0, B0;
    for i := 0 to RoundCount
      invariant (A, B) == Rounds(s, i, A0, B0)
    {
      RoundsNext(s, i, A0, B0);
      var C := Round(s, i, A, B);
      A := B;
      B := C;
    }
  }

  /** FF1(blockCipher:key:radix:plainText:tweak:): splits X into A and B,
      builds P once, runs the ten rounds and returns A || B. */
  method Encrypt(ciph: BlockCipher, key: ByteString, radix: nat, X: seq<nat>, T: ByteString)
    returns (r: Result<seq<nat>>)
    requires radix >= 1
    ensures r == EncryptSpec(ciph, key, radix, X, T)
    ensures r.Ok? <==> radix < ThreeByteLimit && |X| < FourByteLimit && |T| < FourByteLimit && IsNumeral(X, radix)
    ensures r.Ok? ==> |r.value| == |X| && IsNumeral(r.value, radix)
  {
    var t := |T|;
    var n := |X|;
    var u := n / 2;
    var v := n - u;
    var A := X[..u];
    var B := X[u..];
    var b := ByteCount(radix, v);
    var d := PrfBytes(b);
    var P :- ParameterBlock(radix, u, n, t);
    // The digits num would reject in round 0 are those of A and B, the two
    // halves of X; they are checked once, before the rounds.
    if !IsNumeral(X, radix) {
      return Err(InvalidDigit);
    }
    var s := Setup(ciph, key, radix, T, u, v, b, d, P);
    assert s == MakeSetup(ciph, key, radix, n, T, P);
    SplitJoin(X, u);
    NumeralAppend(A, B, radix);
    A, B := RunRounds(s, A, B);
    r := Ok(A + B);
  }
}

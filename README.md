# FF1 format-preserving encryption, modelled in Dafny

This project models `FF1(blockCipher:key:radix:plainText:tweak:)` from
`Sources/FF1/FF1.swift`. The function is the FF1 mode of NIST SP 800-38G
(Algorithm 7): a ten-round Feistel network over a numeral string X in a given
radix. It is keyed through a block cipher CIPH and a tweak T, and its output
is a numeral string with as many digits as X.

The model has four modules:

- `Types`: bytes, byte strings, 16-byte blocks, the block cipher and the
  `Result` type.
- `Utils`: the component functions FF1 is written in terms of. These are
  NUM, NUM_radix, STR_radix, the big-endian byte encoding `represent`, the
  non-negative `mod`, byte-wise XOR, powers and an exact ceiling of log2.
- `Mac`: the PRF of step 6ii, CBC-MAC over the block cipher (Algorithm 6 of
  NIST SP 800-38G).
- `FF1`: the parameter block P, the round message Q, the expansion of R to
  S, the rounds, and the driver.

The driver `FF1.Encrypt` is an imperative method that follows the source
step by step. Its loop runs the rounds in `FF1.RunRounds`, one call to
`FF1.Round` per iteration. It is proved equal to `FF1.EncryptSpec`, a
reference definition built on the recursive `FF1.Rounds`. The properties of
FF1 are proved about that reference: the layout of P and Q, the length of S,
the alternation of m, digit bounds, and that FF1 is injective for a fixed
key and tweak.

The block cipher is a parameter: a function from a key and a block to a
block. Conversions that the source performs through its `Utils` module fail
in this model with a `Result` error. A digit that is not below the radix
gives `InvalidDigit`. A value that does not fit its byte field gives
`EncodingOverflow`.

## Model

| member | source | states |
|---|---|---|
| FF1.Encrypt | Sources/FF1/FF1.swift:12-85 | The driver returns exactly what the reference `EncryptSpec` returns: success iff radix, n and t fit their fields of P and every digit of X is below the radix, and then a numeral string of the same length as X |
| FF1.RunRounds | Sources/FF1/FF1.swift:44-82 | After the loop over rounds 0 to 9, (A, B) are the halves after ten reference rounds; the invariant is that after i iterations (A, B) equals `Rounds(i)` |
| FF1.Round | Sources/FF1/FF1.swift:45-75 | One round builds Q, R, S, y and c and returns C: the m-digit numeral of (NUM_radix(A) + y) mod radix^m, with y the value the reference gives for B |
| FF1.EncryptSpec | Sources/FF1/FF1.swift:12-85 | FF1 succeeds iff radix < 256^3, n < 256^4, t < 256^4 and X is a numeral in the radix; a failure is EncodingOverflow for a field that does not fit and InvalidDigit otherwise; the output has n digits, each below the radix |
| FF1.EncryptInjective | Sources/FF1/FF1.swift:12-85 | Under one cipher, key, radix and tweak, two plaintexts with the same successful ciphertext are equal |
| FF1.Feistel | Sources/FF1/FF1.swift:23-84 | Splitting X after u digits, running the ten rounds and joining A and B keeps the length of X and every digit below the radix |
| FF1.FeistelInjective | Sources/FF1/FF1.swift:23-84 | Split, ten rounds and join map distinct valid inputs to distinct outputs |
| FF1.Rounds | Sources/FF1/FF1.swift:44-82 | After k rounds A has m(k) digits and B has m(k+1) digits (u and v alternate), and all digits are below the radix, so the lengths sum to n |
| FF1.RoundsNext | Sources/FF1/FF1.swift:78-81 | Round k + 1 takes the halves (A, B) after round k to (B, C) |
| FF1.RoundStepInjective | Sources/FF1/FF1.swift:72-81 | If two pairs of halves agree after round k + 1, they already agreed after round k |
| FF1.RoundsInjective | Sources/FF1/FF1.swift:44-82 | Pairs of starting halves that agree after k rounds were equal to begin with |
| FF1.DriverRound | Sources/FF1/FF1.swift:46-66 | The y the driver computes from B through Q, PRF(P followed by Q) and S equals the reference's y for round i, and the expansion never fails |
| FF1.RoundValue | Sources/FF1/FF1.swift:46-66 | y = NUM(S) is below 256^d |
| FF1.Setup.M | Sources/FF1/FF1.swift:69 | m is u on even rounds and v on odd rounds |
| FF1.MAlternates | Sources/FF1/FF1.swift:69 | Rounds two apart use the same m, and two consecutive rounds together use u + v = n digits |
| FF1.AddToNumeral | Sources/FF1/FF1.swift:72-75 | C has m digits, each below the radix, and NUM_radix(C) = (NUM_radix(A) + y) mod radix^m |
| FF1.AddToNumeralStr | Sources/FF1/FF1.swift:72-75 | str(num: c, forRadix: radix, length: m) of c = (num(A) + y) mod radix^m never fails, and its result is `AddToNumeral` |
| FF1.AddToNumeralInjective | Sources/FF1/FF1.swift:72-75 | For a fixed y, steps 6vi and 6vii are injective in A, so A can be recovered from C |
| FF1.ModAddCancel | Sources/FF1/FF1.swift:72 | Two values below p that give the same (a + y) mod p are equal |
| FF1.ByteCount | Sources/FF1/FF1.swift:28 | b is the least number of bytes with radix^v <= 256^b |
| FF1.BitsToBytes | Sources/FF1/FF1.swift:28 | Rounding the exact bit count ceil(log2(radix^v)) up to whole bytes gives the least such byte count |
| FF1.ByteCountAtMost | Sources/FF1/FF1.swift:28 | With radix below 256^3, b <= 3v |
| FF1.LeastBytesAtMost | Sources/FF1/FF1.swift:28 | Any byte count below which radix^v does not fit is at most 3v, for radix below 256^3 |
| FF1.PrfBytes | Sources/FF1/FF1.swift:31 | d is a multiple of 4 with b + 4 <= d <= b + 7 |
| FF1.PrfBytesSmall | Sources/FF1/FF1.swift:31 | For 1 <= b <= 4, d = 8, so S is 8 bytes and y = NUM(S) is a 64-bit value that can be as large as 2^64 - 1 |
| FF1.MaxSblock | Sources/FF1/FF1.swift:55 | maxSblock is the block count with 16 maxSblock < d <= 16 (maxSblock + 1) |
| FF1.CounterBlock | Sources/FF1/FF1.swift:58 | The block of counter j: CIPH_K(R xor [j]^16) |
| FF1.CounterBlockOf | Sources/FF1/FF1.swift:58 | The closure `j in CIPH(key, R ^ represent(j, inBytes: 16))` that is mapped over 1...maxSblock |
| FF1.CounterBlockRepresents | Sources/FF1/FF1.swift:58 | For a counter below 256^16, represent(j, inBytes: 16) succeeds and the closure enciphers R xor that encoding |
| FF1.CounterInputsDiffer | Sources/FF1/FF1.swift:58 | Distinct counters below 256^16 give distinct cipher inputs R xor [j]^16 |
| FF1.OneByteField | Sources/FF1/FF1.swift:34-39 | represent(x, inBytes: 1) is the single byte x for x < 256 |
| FF1.ParameterBlock | Sources/FF1/FF1.swift:34-41 | P can be built iff radix < 256^3, n < 256^4 and t < 256^4; otherwise EncodingOverflow; P is 16 bytes long |
| FF1.ParameterBlockLayout | Sources/FF1/FF1.swift:34-41 | P = [1, 2, 1], radix in three bytes, the round count 10, u mod 256, n in four bytes and t in four bytes |
| FF1.ParameterBlockConstants | Sources/FF1/FF1.swift:34-39 | Bytes 0 to 2 of P are 1, 2, 1, byte 6 is 10 and byte 7 is u mod 256 |
| FF1.ParameterBlockFields | Sources/FF1/FF1.swift:37-41 | Bytes 3 to 5 of P hold radix, bytes 8 to 11 hold n and bytes 12 to 15 hold t |
| FF1.ParameterBlockRepresents | Sources/FF1/FF1.swift:34-41 | P equals the eight `represent` fields joined in order, and fails with the error of the first field that does not fit |
| FF1.Pad | Sources/FF1/FF1.swift:47 | The zero padding mod(-t-b-1, 16) is below 16 and makes t + pad + 1 + b a multiple of 16 |
| FF1.RoundMessage | Sources/FF1/FF1.swift:46-49 | Q can be built iff the round index fits one byte and NUM_radix(B) fits b bytes; otherwise EncodingOverflow; Q has t + pad + 1 + b bytes |
| FF1.RoundMessageAligned | Sources/FF1/FF1.swift:46-52 | Q is a whole number of 16-byte blocks, so P followed by Q is a valid CBC-MAC input |
| FF1.RoundMessageLayout | Sources/FF1/FF1.swift:46-49 | Q is T, then pad zero bytes, then the round index byte, then NUM_radix(B) in b bytes |
| FF1.RoundMessageRepresents | Sources/FF1/FF1.swift:46-49 | Q equals T followed by the three `represent` fields joined in order, and fails with the error of the first field that does not fit |
| FF1.RoundMessagesDiffer | Sources/FF1/FF1.swift:46-49 | The messages of two different rounds differ, whatever their B |
| FF1.RoundBlock | Sources/FF1/FF1.swift:52 | R = PRF(P followed by Q) for the Q of round i: one 16-byte block |
| FF1.RoundBlockChains | Sources/FF1/FF1.swift:34-52 | Q is whole blocks, and R continues the CBC-MAC chain from PRF(P), so the chaining value after P is the same in every round |
| FF1.Stream | Sources/FF1/FF1.swift:58-59 | The joined blocks 1 to count are 16 count bytes long |
| FF1.StreamIndex | Sources/FF1/FF1.swift:58-59 | Byte 16 p + r of the joined blocks is byte r of block p + 1 |
| FF1.WholeS | Sources/FF1/FF1.swift:56-62 | S_whole is 16 (maxSblock + 1) bytes when maxSblock >= 1 and 16 bytes otherwise |
| FF1.ExpandS | Sources/FF1/FF1.swift:55-63 | S can be built iff every counter fits 16 bytes; S has exactly d bytes, and S is the first d bytes of R when d <= 16 |
| FF1.ExpandSBytes | Sources/FF1/FF1.swift:55-63 | Byte k of S is byte k of R for k < 16, and otherwise byte k mod 16 of CIPH_K(R xor [k/16]^16), with 1 <= k/16 <= maxSblock |
| FF1.WholeSByte | Sources/FF1/FF1.swift:56-62 | Byte k of S_whole is byte k of R for k < 16, and otherwise byte k mod 16 of the block of counter k/16 |
| FF1.CounterByte | Sources/FF1/FF1.swift:57-59 | For 16 <= k, byte k of R followed by the counter blocks is byte k mod 16 of the block of counter k/16, a counter from 1 to maxSblock |
| FF1.SetupValid | Sources/FF1/FF1.swift:19-41 | Steps 1 to 5 give halves of u and v digits with u = v or u + 1 = v, radix^v <= 256^b, counters below 256^16 and a 16-byte P, whenever P can be built |
| FF1.NumFits | Sources/FF1/FF1.swift:49 | NUM_radix(B) never overflows its b-byte field of Q |
| FF1.MakeSetup | Sources/FF1/FF1.swift:16-41 | The values of steps 1 to 5 are a valid setup with u + v = n |
| FF1.JoinCancel | Sources/FF1/FF1.swift:84 | The join of A and B determines A and B when the length of A is fixed |
| Mac.Prf | Sources/FF1/FF1.swift:15 | The PRF, CBC-MAC over CIPH, is defined on whole blocks and yields one block |
| Mac.Chain | Sources/FF1/FF1.swift:52 | The CBC-MAC chain of Algorithm 6: Y_j = CIPH_K(Y_{j-1} xor X_j) over the 16-byte blocks of X |
| Mac.PrfSingleBlock | Sources/FF1/FF1.swift:52 | On a single block the PRF is CIPH_K itself |
| Mac.PrfAppend | Sources/FF1/FF1.swift:52 | The CBC-MAC of X1 followed by X2 continues the chain from the CBC-MAC of X1 |
| Mac.BitXorZero | Sources/FF1/FF1.swift:52 | XOR with zero leaves a value unchanged, so the zero chaining value passes the first block through |
| Utils.Num | Sources/FF1/FF1.swift:49 | num(B, forRadix:) succeeds iff every digit is below the radix, and then gives NUM_radix(B) < radix^|B| |
| Utils.Str | Sources/FF1/FF1.swift:75 | str(num:forRadix:length:) succeeds iff x < radix^m, and gives m digits below the radix whose value is x |
| Utils.NumStrRoundTrip | Sources/FF1/FF1.swift:72-75 | STR_radix of NUM_radix of a numeral, at the same length, gives the numeral back |
| Utils.StrRadix | Sources/FF1/FF1.swift:75 | STR_radix(x) has m digits below the radix and value x mod radix^m |
| Utils.StrNumRadix | Sources/FF1/FF1.swift:75 | STR_radix(NUM_radix(X), |X|) = X |
| Utils.NumRadix | Sources/FF1/FF1.swift:72 | NUM_radix, the big-endian value of a digit string |
| Utils.NumBound | Sources/FF1/FF1.swift:72 | NUM_radix(X) < radix^|X| when every digit is below the radix |
| Utils.NumeralAppend | Sources/FF1/FF1.swift:24-25 | A joined string is a numeral iff both its parts are |
| Utils.NumBytes | Sources/FF1/FF1.swift:66 | NUM(S) < 256^|S| |
| Utils.Represent | Sources/FF1/FF1.swift:34-49 | represent(x, inBytes: len) succeeds iff x < 256^len, and gives len bytes whose value is x |
| Utils.RepresentNumBytes | Sources/FF1/FF1.swift:49 | Re-encoding the value of a byte string at its own length gives it back |
| Utils.Bytes | Sources/FF1/FF1.swift:34-49 | The big-endian encoding in len bytes has len bytes |
| Utils.BytesIsStr | Sources/FF1/FF1.swift:34-49 | The byte encoding is STR_256 |
| Utils.BytesValue | Sources/FF1/FF1.swift:34-49 | The value of the encoding of x < 256^len is x |
| Utils.NumBytesZero | Sources/FF1/FF1.swift:47 | A byte string of value 0 is all zero bytes |
| Utils.NumBytesSingle | Sources/FF1/FF1.swift:34-39 | The value of a one-byte string is its byte |
| Utils.Mod | Sources/FF1/FF1.swift:39 | mod(x, m) is the remainder in [0, m) that differs from x by a multiple of m, also for negative x |
| Utils.Xor | Sources/FF1/FF1.swift:58 | R ^ [j]^16 is the byte-wise XOR, of the length of R |
| Utils.XorCancel | Sources/FF1/FF1.swift:58 | XOR with the same string twice gives the original |
| Utils.XorCommutes | Sources/FF1/FF1.swift:58 | a ^ b = b ^ a |
| Utils.BitXor | Sources/FF1/FF1.swift:58 | The XOR of two values below 2^bits is below 2^bits |
| Utils.BitXorCancel | Sources/FF1/FF1.swift:58 | XOR of bits is its own inverse |
| Utils.CeilLog2 | Sources/FF1/FF1.swift:28 | ceil(log2 x): the least k with x <= 2^k |
| Utils.CeilLog2Least | Sources/FF1/FF1.swift:28 | Every k with x <= 2^k is at least CeilLog2(x) |
| Utils.Pow | Sources/FF1/FF1.swift:72 | radix ** m is positive for a positive base |
| Utils.PowAdd | Sources/FF1/FF1.swift:72 | r^(a+b) = r^a r^b |
| Utils.PowMul | Sources/FF1/FF1.swift:28 | (r^a)^e = r^(a e) |
| Utils.PowMonotoneExp | Sources/FF1/FF1.swift:28 | Powers grow with the exponent for a positive base |
| Utils.PowMonotoneBase | Sources/FF1/FF1.swift:28 | Powers grow with the base |
| Utils.ModDecompose | Sources/FF1/FF1.swift:75 | x mod (r p) splits into its last digit and the rest |
| Utils.DivModUnique | Sources/FF1/FF1.swift:72 | Quotient and remainder are unique |

## Left out

- CIPH: the block cipher is a parameter of every member; its internals are not modelled.
- `curryLeft` and the PRF closure of line 15: the model calls `Mac.Prf` with the cipher directly.
- The `Types`, `Utils` and `MAC` Swift modules are not part of this model. `num`, `str`, `represent`, `mod`, `^` and `CBC_MAC` are modelled from their definitions in NIST SP 800-38G, sections 4.5 and Algorithm 6. A failing conversion is modelled as a `Result` error, because how the Swift versions fail cannot be seen.
- The floating-point steps 3, 4 and 6iii (`ceil`, `log2`, `Double`) are modelled with exact integers. Rounding error for large v or radix is not captured.
- Fixed-width `Int` and `UInt` arithmetic is modelled with unbounded integers. An overflow of `num`, `+` or `**` on 64 bits is not captured. The first overflow that can occur is the sum `num(A) + y` in step 6vi, for every input with b >= 1. Whenever 1 <= b <= 4, d = 8 (`FF1.PrfBytesSmall`), so y = `num(S)` can be as large as 2^64 - 1. Already for n = 2 in radix 10, num(A) = 9 and y >= 2^64 - 9 make the sum reach 2^64. `num(S)` itself can reach 2^64 once b >= 5, because then d >= 12. `num(B)` and `radix ** m` overflow for long enough inputs.
- FF1.Encrypt: requires radix >= 1, and its `radix: nat` excludes negative values. For radix <= 0, `log2(radix)` is minus infinity or NaN and its conversion to `Int` in step 3 traps; the model does not model the trap.
- FF1.Encrypt: the source validates no parameters (radix range, minimum length, the radix^minlen bound of NIST SP 800-38G); the model adds none.
- FF1.Encrypt: checks every digit of X once, before round 0, and returns `InvalidDigit`. This assumes that the Swift `num(_:forRadix:)` rejects a digit that is not below the radix, since NIST SP 800-38G admits only numeral strings whose digits are below the radix. In the source, round 0's `num(B)` reads X[u..n] and round 0's `num(A)` reads X[0..u]. Round 1's `num(A)` reads X[u..n] again, which round 0 has already read. Every later half is a `str` output, whose digits are all valid. NUM_radix itself (Algorithm 1 of NIST SP 800-38G) does no such check. If the Swift `num` does not check either, the source goes on with such a digit: it returns a ciphertext, or it fails in `represent` in step 6i once NUM_radix(B) outgrows b bytes. The model returns `InvalidDigit` in both cases.
- FF1.CounterBlock: is total. It is only applied to counters from 1 to maxSblock, which `ExpandS` keeps below 256^16. Every field of 16 bytes therefore holds the counter exactly.
- Decryption: the inverse function of FF1 is outside this model. Injectivity (`FF1.EncryptInjective`) is proved instead.
- `Sources/Algebra/Field.swift` is not part of this model.
- The test vectors are not modelled.

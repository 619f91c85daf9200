/** The component functions FF1 is written in terms of (section 4.5 of
    NIST SP 800-38G): powers, the non-negative modulus, NUM_radix, NUM,
    STR^m_radix, the fixed-length big-endian byte encoding and byte-wise xor,
    together with the round trips that make them inverse to each other. */
module Utils {
  import opened Types

  // ---------------------------------------------------------------------
  // Powers (the `**` operator)
  // ---------------------------------------------------------------------

  /** r ** e */
  function Pow(r: nat, e: nat): (p: nat)
    ensures r >= 1 ==> p >= 1
  {
    if e == 0 then 1 else r * Pow(r, e - 1)
  }

  lemma {:induction false} PowAdd(r: nat, a: nat, b: nat)
    ensures Pow(r, a + b) == Pow(r, a) * Pow(r, b)
    decreases a
  {
    if a > 0 {
      PowAdd(r, a - 1, b);
      assert Pow(r, a + b) == r * Pow(r, (a - 1) + b);
      MulAssoc(r, Pow(r, a - 1), Pow(r, b));
    }
  }

  lemma {:induction false} PowMul(r: nat, a: nat, e: nat)
    ensures Pow(Pow(r, a), e) == Pow(r, a * e)
    decreases e
  {
    if e > 0 {
      PowMul(r, a, e - 1);
      PowAdd(r, a, a * (e - 1));
      assert a + a * (e - 1) == a * e;
    }
  }

  lemma {:induction false} PowMonotoneExp(r: nat, a: nat, b: nat)
    requires r >= 1 && a <= b
    ensures Pow(r, a) <= Pow(r, b)
    decreases b
  {
    if a < b {
      PowMonotoneExp(r, a, b - 1);
      MulMonotone(1, r, Pow(r, b - 1));
    }
  }

  lemma {:induction false} PowMonotoneBase(r: nat, s: nat, e: nat)
    requires r <= s
    ensures Pow(r, e) <= Pow(s, e)
    decreases e
  {
    if e > 0 {
      PowMonotoneBase(r, s, e - 1);
      MulMonotone(r, s, Pow(r, e - 1));
      MulMonotone(Pow(r, e - 1), Pow(s, e - 1), s);
    }
  }

  lemma MulAssoc(x: int, y: int, z: int)
    ensures x * (y * z) == (x * y) * z
  {
  }

  lemma MulMonotone(a: nat, b: nat, c: nat)
    requires a <= b
    ensures a * c <= b * c
  {
  }

  // ---------------------------------------------------------------------
  // Integer division facts
  // ---------------------------------------------------------------------

  /** Euclidean division has exactly one quotient and remainder. */
  lemma DivModUnique(x: int, m: int, q: int, s: int)
    requires m > 0 && x == q * m + s && 0 <= s < m
    ensures x / m == q && x % m == s
  {
    var q', s' := x / m, x % m;
    assert (q - q') * m == s' - s;
    if q - q' >= 1 {
      MulMonotone(1, q - q', m);
    } else if q' - q >= 1 {
      MulMonotone(1, q' - q, m);
    }
  }

  /** Splitting x mod r*p into its lowest base-r digit and the rest. */
  lemma ModDecompose(x: nat, r: nat, p: nat)
    requires r > 0 && p > 0
    ensures x % (r * p) == ((x / r) % p) * r + x % r
  {
    var q, s := x / r, x % r;
    var q2, s2 := q / p, q % p;
    assert x == q * r + s;
    assert q == q2 * p + s2;
    assert x == q2 * (r * p) + (s2 * r + s) by {
      calc {
        x;
        q * r + s;
        (q2 * p + s2) * r + s;
        q2 * (r * p) + (s2 * r + s);
      }
    }
    MulMonotone(s2, p - 1, r);
    DivModUnique(x, r * p, q2, s2 * r + s);
  }

  // ---------------------------------------------------------------------
  // mod: the non-negative modulus
  // ---------------------------------------------------------------------

  /** mod(x, m): the remainder of x by m in [0, m), also for negative x
      (unlike the truncating `%` of fixed-width integers). */
  function Mod(x: int, m: int): (r: int)
    requires m > 0
    ensures 0 <= r < m
    ensures (x - r) % m == 0
  {
    DivModUnique(x - x % m, m, x / m, 0);
    x % m
  }

  // ---------------------------------------------------------------------
  // Numeral strings: NUM_radix and STR^m_radix (Algorithms 1 and 3)
  // ---------------------------------------------------------------------

  /** Every digit of X is below radix. */
  predicate IsNumeral(X: seq<nat>, radix: nat) {
    forall k :: 0 <= k < |X| ==> X[k] < radix
  }

  /** A concatenation is a numeral exactly when both parts are. */
  lemma NumeralAppend(X: seq<nat>, Y: seq<nat>, radix: nat)
    ensures IsNumeral(X + Y, radix) <==> IsNumeral(X, radix) && IsNumeral(Y, radix)
  {
    if IsNumeral(X + Y, radix) {
      forall k | 0 <= k < |X| ensures X[k] < radix {
        assert X[k] == (X + Y)[k];
      }
      forall k | 0 <= k < |Y| ensures Y[k] < radix {
        assert Y[k] == (X + Y)[|X| + k];
      }
    }
  }

  /** NUM_radix(X): X read as a big-endian base-radix numeral. */
  function NumRadix(X: seq<nat>, radix: nat): nat
  {
    if |X| == 0 then 0 else NumRadix(X[..|X| - 1], radix) * radix + X[|X| - 1]
  }

  /** A numeral of length m denotes a value below radix^m. */
  lemma {:induction false} NumBound(X: seq<nat>, radix: nat)
    requires IsNumeral(X, radix)
    ensures NumRadix(X, radix) < Pow(radix, |X|)
  {
    if |X| > 0 {
      var init := X[..|X| - 1];
      assert IsNumeral(init, radix) by {
        forall k | 0 <= k < |init| ensures init[k] < radix {
          assert init[k] == X[k];
        }
      }
      NumBound(init, radix);
      DigitAppendBound(NumRadix(init, radix), Pow(radix, |init|), X[|X| - 1], radix);
    }
  }

  /** Appending a digit to a numeral below p gives one below p * radix. */
  lemma DigitAppendBound(n: nat, p: nat, digit: nat, radix: nat)
    requires n < p && digit < radix
    ensures n * radix + digit < radix * p
  {
    MulMonotone(n + 1, p, radix);
  }

  /** STR^m_radix(x): the m least significant base-radix digits of x, most
      significant first. */
  function StrRadix(x: nat, radix: nat, m: nat): (Y: seq<nat>)
    requires radix >= 1
    ensures |Y| == m
    ensures IsNumeral(Y, radix)
    ensures NumRadix(Y, radix) == x % Pow(radix, m)
    decreases m
  {
    if m == 0 then []
    else
      var high := StrRadix(x / radix, radix, m - 1);
      var Y := high + [x % radix];
      assert Y[..m - 1] == high;
      ModDecompose(x, radix, Pow(radix, m - 1));
      Y
  }

  /** Reading a numeral and writing it back with its own length gives it back. */
  lemma {:induction false} StrNumRadix(X: seq<nat>, radix: nat)
    requires radix >= 1 && IsNumeral(X, radix)
    ensures StrRadix(NumRadix(X, radix), radix, |X|) == X
  {
    if |X| > 0 {
      var init := X[..|X| - 1];
      assert IsNumeral(init, radix) by {
        forall k | 0 <= k < |init| ensures init[k] < radix {
          assert init[k] == X[k];
        }
      }
      var x := NumRadix(X, radix);
      DivModUnique(x, radix, NumRadix(init, radix), X[|X| - 1]);
      StrNumRadix(init, radix);
      assert X == init + [X[|X| - 1]];
    }
  }

  /** num(X, forRadix: radix): NUM_radix(X), failing on a digit that is not
      below the radix. */
  function Num(X: seq<nat>, radix: nat): (r: Result<nat>)
    ensures r.Ok? <==> IsNumeral(X, radix)
    ensures r.Ok? ==> r.value == NumRadix(X, radix) && r.value < Pow(radix, |X|)
  {
    if IsNumeral(X, radix) then
      NumBound(X, radix);
      Ok(NumRadix(X, radix))
    else
      Err(InvalidDigit)
  }

  /** str(num: x, forRadix: radix, length: m): STR^m_radix(x), failing when x
      does not fit in m digits. */
  function Str(x: nat, radix: nat, m: nat): (r: Result<seq<nat>>)
    requires radix >= 1
    ensures r.Ok? <==> x < Pow(radix, m)
    ensures r.Ok? ==> |r.value| == m && IsNumeral(r.value, radix)
    ensures r.Ok? ==> NumRadix(r.value, radix) == x
  {
    if x < Pow(radix, m) then
      DivModUnique(x, Pow(radix, m), 0, x);
      Ok(StrRadix(x, radix, m))
    else
      Err(EncodingOverflow)
  }

  /** str inverts num: a valid numeral converts to an integer and back to
      itself. */
  lemma NumStrRoundTrip(X: seq<nat>, radix: nat)
    requires radix >= 1 && IsNumeral(X, radix)
    ensures Num(X, radix).Ok?
    ensures Str(Num(X, radix).value, radix, |X|) == Ok(X)
  {
    NumBound(X, radix);
    StrNumRadix(X, radix);
  }

  // ---------------------------------------------------------------------
  // Byte strings: NUM and represent
  // ---------------------------------------------------------------------

  /** num(S): NUM(S), the byte string S read as a big-endian unsigned integer. */
  function NumBytes(S: ByteString): (y: nat)
    ensures y < Pow(256, |S|)
  {
    NumBound(S, 256);
    NumRadix(S, 256)
  }

  /** The len least significant bytes of x, most significant first. */
  function Bytes(x: nat, len: nat): (F: ByteString)
    ensures |F| == len
    decreases len
  {
    if len == 0 then [] else Bytes(x / 256, len - 1) + [x % 256]
  }

  /** Bytes is STR^len_256. */
  lemma {:induction false} BytesIsStr(x: nat, len: nat)
    ensures Bytes(x, len) == StrRadix(x, 256, len)
    decreases len
  {
    if len > 0 {
      BytesIsStr(x / 256, len - 1);
    }
  }

  /** A value that fits in len bytes is read back from its bytes. */
  lemma BytesValue(x: nat, len: nat)
    requires x < Pow(256, len)
    ensures NumBytes(Bytes(x, len)) == x
  {
    BytesIsStr(x, len);
    DivModUnique(x, Pow(256, len), 0, x);
  }

  /** represent(x, inBytes: len): x as a big-endian byte string of exactly len
      bytes, failing when x does not fit. */
  function Represent(x: nat, len: nat): (r: Result<ByteString>)
    ensures r.Ok? <==> x < Pow(256, len)
    ensures r.Ok? ==> |r.value| == len && NumBytes(r.value) == x
  {
    if x < Pow(256, len) then
      BytesValue(x, len);
      Ok(Bytes(x, len))
    else
      Err(EncodingOverflow)
  }

  /** represent inverts num on byte strings. */
  lemma RepresentNumBytes(S: ByteString)
    ensures Represent(NumBytes(S), |S|) == Ok(S)
  {
    NumStrRoundTrip(S, 256);
    BytesIsStr(NumBytes(S), |S|);
  }

  /** Only the all-zero byte string denotes 0. */
  lemma {:induction false} NumBytesZero(S: ByteString)
    requires NumBytes(S) == 0
    ensures forall k :: 0 <= k < |S| ==> S[k] == 0
  {
    if |S| > 0 {
      var init := S[..|S| - 1];
      assert NumRadix(init, 256) == 0 && S[|S| - 1] == 0;
      NumBytesZero(init);
      assert forall k :: 0 <= k < |init| ==> S[k] == init[k];
    }
  }

  /** A one-byte string holds exactly the value it represents. */
  lemma NumBytesSingle(S: ByteString)
    requires |S| == 1
    ensures NumBytes(S) == S[0]
  {
    assert S[..0] == [];
  }

  // ---------------------------------------------------------------------
  // Byte-wise xor (the `^` operator on byte strings)
  // ---------------------------------------------------------------------

  /** The bitwise xor of the low `bits` bits of x and y. */
  function BitXor(x: nat, y: nat, bits: nat): (z: nat)
    ensures z < Pow(2, bits)
  {
    if bits == 0 then 0 else (x + y) % 2 + 2 * BitXor(x / 2, y / 2, bits - 1)
  }

  /** Xoring with y twice gives back any x of at most `bits` bits. */
  lemma {:induction false} BitXorCancel(x: nat, y: nat, bits: nat)
    requires x < Pow(2, bits)
    ensures BitXor(BitXor(x, y, bits), y, bits) == x
  {
    if bits > 0 {
      var z := BitXor(x, y, bits);
      var z' := BitXor(x / 2, y / 2, bits - 1);
      DivModUnique(z, 2, z', (x + y) % 2);
      ParityCancel(x, y, z);
      BitXorCancel(x / 2, y / 2, bits - 1);
      assert BitXor(z, y, bits) == (z + y) % 2 + 2 * BitXor(z', y / 2, bits - 1);
    }
  }

  /** Adding y to a number of the parity of x + y gives the parity of x. */
  lemma ParityCancel(x: nat, y: nat, z: nat)
    requires z % 2 == (x + y) % 2
    ensures (z + y) % 2 == x % 2
  {
  }

  /** The xor of two bytes. */
  function ByteXor(x: Byte, y: Byte): Byte {
    BitXor(x, y, 8)
  }

  /** a ^ b for byte strings of equal length. */
  function Xor(a: ByteString, b: ByteString): (r: ByteString)
    requires |a| == |b|
    ensures |r| == |a|
    ensures forall k :: 0 <= k < |r| ==> r[k] == ByteXor(a[k], b[k])
  {
    seq(|a|, k requires 0 <= k < |a| => ByteXor(a[k], b[k]))
  }

  /** Xoring twice with the same string undoes the first xor. */
  lemma XorCancel(a: ByteString, b: ByteString)
    requires |a| == |b|
    ensures Xor(Xor(a, b), b) == a
  {
    forall k | 0 <= k < |a| ensures Xor(Xor(a, b), b)[k] == a[k] {
      BitXorCancel(a[k], b[k], 8);
    }
  }

  /** The bitwise xor does not depend on the order of its operands. */
  lemma {:induction false} BitXorCommutes(x: nat, y: nat, bits: nat)
    ensures BitXor(x, y, bits) == BitXor(y, x, bits)
  {
    if bits > 0 {
      BitXorCommutes(x / 2, y / 2, bits - 1);
    }
  }

  /** a ^ b == b ^ a. */
  lemma XorCommutes(a: ByteString, b: ByteString)
    requires |a| == |b|
    ensures Xor(a, b) == Xor(b, a)
  {
    forall k | 0 <= k < |a| ensures Xor(a, b)[k] == Xor(b, a)[k] {
      BitXorCommutes(a[k], b[k], 8);
    }
  }

  // ---------------------------------------------------------------------
  // ceil(log2 x), exactly
  // ---------------------------------------------------------------------

  /** The least k with x <= 2^k: ceil(log2 x) for x >= 1, and 0 for x = 0. */
  function CeilLog2(x: nat): (k: nat)
    ensures x <= Pow(2, k)
    ensures k == 0 || Pow(2, k - 1) < x
    decreases x
  {
    if x <= 1 then 0 else 1 + CeilLog2((x + 1) / 2)
  }

  /** Any k with x <= 2^k is at least CeilLog2(x). */
  lemma CeilLog2Least(x: nat, j: nat)
    requires x <= Pow(2, j)
    ensures CeilLog2(x) <= j
  {
  }
}

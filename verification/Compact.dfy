/** The 32-bit "compact" form of a 256-bit proof-of-work target, and the work it stands for. */
module CompactTarget {
  import opened Bits
  import opened Bytes

  // 2^256
  const LIMIT: nat := 0x1_0000000000000000_0000000000000000_0000000000000000_0000000000000000
  type uint256 = n: nat | n < LIMIT

  // What 256 bits keep of a number.
  function Wrap256(n: nat): (w: uint256)
    ensures n < LIMIT ==> w == n
  {
    if n < LIMIT then n else Wrap256(n - LIMIT)
  }

  lemma {:induction false} Wrap256IsMod(n: nat)
    ensures Wrap256(n) == n % LIMIT
  {
    if n >= LIMIT {
      Wrap256IsMod(n - LIMIT);
      DivUnique(n, LIMIT, (n - LIMIT) / LIMIT + 1, (n - LIMIT) % LIMIT);
    }
  }

  // ---------- the number a compact value denotes ----------

  function Exponent(compact: nat): nat { Shr(compact, 24) }

  function Mantissa(compact: nat): nat { And(compact, 0x007f_ffff) }

  predicate SignBit(compact: nat) { And(compact, 0x0080_0000) != 0 }

  // n * 256^k and n / 256^k, a byte at a time
  function Up(n: nat, k: nat): nat {
    if k == 0 then n else 256 * Up(n, k - 1)
  }

  function Down(n: nat, k: nat): nat {
    if k == 0 then n else Down(n / 256, k - 1)
  }

  // mantissa * 256^(exponent - 3), rounded down; without any limit on its size
  function Denoted(exponent: nat, mantissa: nat): nat {
    Down(Up(mantissa, exponent), 3)
  }

  // The part of the mantissa that is left after the shift for small exponents.
  function UsedMantissa(compact: nat): nat {
    var size := Exponent(compact);
    if size <= 3 then Down(Mantissa(compact), 3 - size) else Mantissa(compact)
  }

  function Decode(compact: nat): nat {
    Denoted(Exponent(compact), Mantissa(compact))
  }

  predicate IsNegative(compact: nat) {
    Decode(compact) != 0 && SignBit(compact)
  }

  // ---------- the compact form of a number ----------

  function ByteLength(n: nat): nat {
    if n == 0 then 0 else 1 + ByteLength(n / 256)
  }

  // The three leading bytes of n.
  function LeadingBytes(n: nat): nat {
    var size := ByteLength(n);
    if size <= 3 then Up(n, 3 - size) else Down(n, size - 3)
  }

  // The first bit of a mantissa is the sign: a mantissa that has it set moves down a byte.
  function EncodedExponent(n: nat): nat {
    if LeadingBytes(n) < 0x80_0000 then ByteLength(n) else ByteLength(n) + 1
  }

  function EncodedMantissa(n: nat): nat {
    if LeadingBytes(n) < 0x80_0000 then LeadingBytes(n) else LeadingBytes(n) / 256
  }

  function Compose(exponent: nat, mantissa: nat): nat {
    exponent * 0x100_0000 + mantissa
  }

  function Encode(n: nat): nat {
    Compose(EncodedExponent(n), EncodedMantissa(n))
  }

  /** The number denoted and its sign, by arithmetic on the compact number alone. */
  lemma DecodeMeans(c: nat)
    ensures Decode(c) == c % 0x80_0000 * Pow256(c / 0x100_0000) / 0x100_0000
    ensures IsNegative(c) <==> c / 0x80_0000 % 2 == 1 && Decode(c) != 0
  {
    FieldBits(c);
    DenotedMeans(Exponent(c), Mantissa(c));
  }

  // ---------- powers ----------

  lemma {:induction false} UpIsMul(n: nat, k: nat)
    ensures Up(n, k) == n * Pow256(k)
  {
    if k > 0 {
      UpIsMul(n, k - 1);
      assert 256 * (n * Pow256(k - 1)) == n * (256 * Pow256(k - 1));
    }
  }

  lemma {:induction false} DownIsDiv(n: nat, k: nat)
    ensures Down(n, k) == n / Pow256(k)
  {
    if k > 0 {
      DownIsDiv(n / 256, k - 1);
      DivDiv(n, 256, Pow256(k - 1));
    }
  }

  /** The number denoted, as one formula over the integers. */
  lemma DenotedMeans(e: nat, m: nat)
    ensures Denoted(e, m) == m * Pow256(e) / 0x100_0000
  {
    UpIsMul(m, e);
    DownIsDiv(Up(m, e), 3);
    Pow256Values();
  }

  lemma {:induction false} Pow256Monotone(a: nat, b: nat)
    requires a <= b
    ensures Pow256(a) <= Pow256(b)
    ensures a < b ==> 256 * Pow256(a) <= Pow256(b)
    decreases b
  {
    if a < b { Pow256Monotone(a, b - 1); }
  }

  lemma Pow256Values()
    ensures Pow256(1) == 256 && Pow256(2) == 0x1_0000 && Pow256(3) == 0x100_0000
  {
    assert Pow256(1) == 256 * Pow256(0);
  }

  lemma MulDivCancel(a: nat, b: nat)
    requires b > 0
    ensures a * b / b == a && a * b % b == 0
  {
    DivUnique(a * b, b, a, 0);
  }

  // The quotient is the only number with these bounds.
  lemma DivBounds(n: nat, d: nat)
    requires d > 0
    ensures n / d * d <= n < n / d * d + d
  {
  }

  // Scaling numerator and denominator changes nothing.
  lemma DivScale(n: nat, d: nat, f: nat)
    requires d > 0 && f > 0
    ensures d * f > 0 && n * f / (d * f) == n / d
  {
    var q, r := n / d, n % d;
    assert n * f == q * (d * f) + r * f by {
      assert n == q * d + r;
      assert (q * d + r) * f == (q * d) * f + r * f;
      assert (q * d) * f == q * (d * f);
    }
    assert 0 <= r * f < d * f by { MulLe(r + 1, d, f); assert (r + 1) * f == r * f + f; }
    DivUnique(n * f, d * f, q, r * f);
  }

  lemma {:induction false} ByteLengthBounds(n: nat)
    requires n > 0
    ensures ByteLength(n) > 0
    ensures Pow256(ByteLength(n) - 1) <= n < Pow256(ByteLength(n))
  {
    if n >= 256 {
      ByteLengthBounds(n / 256);
    }
  }

  // ---------- what an encoding means ----------

  // The leading bytes as one formula, for any length.
  lemma LeadingBytesScaled(n: nat)
    requires n > 0
    ensures var s := ByteLength(n);
            LeadingBytes(n) == n * 0x100_0000 / Pow256(s) &&
            0x1_0000 * Pow256(s) <= n * 0x100_0000 < 0x100_0000 * Pow256(s) &&
            0x1_0000 <= LeadingBytes(n) < 0x100_0000 &&
            (s <= 3 ==> LeadingBytes(n) * Pow256(s) == n * 0x100_0000)
  {
    var s := ByteLength(n);
    ByteLengthBounds(n);
    Pow256Values();
    if s <= 3 {
      UpIsMul(n, 3 - s);
      Pow256Add(3 - s, s);
      ScaleUp(n, Pow256(3 - s), Pow256(s));
    } else {
      DownIsDiv(n, s - 3);
      Pow256Add(s - 3, 3);
      DivScale(n, Pow256(s - 3), 0x100_0000);
    }
    assert 256 * Pow256(s - 1) == Pow256(s);
    QuotientRange(n * 0x100_0000, Pow256(s), 0x1_0000, 0x100_0000);
  }

  lemma ScaleUp(n: nat, a: nat, p: nat)
    requires p > 0 && a * p == 0x100_0000
    ensures n * a == n * 0x100_0000 / p && n * a * p == n * 0x100_0000
  {
    assert n * a * p == n * (a * p);
    MulDivCancel(n * a, p);
  }

  lemma QuotientRange(n: nat, d: nat, lo: nat, hi: nat)
    requires d > 0 && lo * d <= n < hi * d
    ensures lo <= n / d < hi
  {
    DivBounds(n, d);
    var q := n / d;
    if q < lo { MulLe(q + 1, lo, d); }
    if q >= hi { MulLe(hi, q, d); }
  }

  /** The exponent and the mantissa of an encoding, characterised without the code's case split:
      the exponent is the one that brings the mantissa into [2^15, 2^23), and the mantissa is
      n / 256^(exponent - 3), rounded down when the exponent exceeds 3 and exact otherwise. */
  lemma EncodingMeans(n: nat)
    requires n > 0
    ensures var e, m := EncodedExponent(n), EncodedMantissa(n);
            m == n * 0x100_0000 / Pow256(e) && 0x8000 <= m < 0x80_0000 &&
            (e <= 3 ==> m * Pow256(e) == n * 0x100_0000)
    ensures 0x8000 * Pow256(EncodedExponent(n)) <= n * 0x100_0000 < 0x80_0000 * Pow256(EncodedExponent(n))
  {
    LeadingBytesScaled(n);
    if LeadingBytes(n) < 0x80_0000 {
      BelowProduct(n * 0x100_0000, Pow256(ByteLength(n)), 0x80_0000);
    } else {
      MovedMantissa(n);
    }
  }

  lemma BelowProduct(n: nat, d: nat, bound: nat)
    requires d > 0 && n / d < bound
    ensures n < bound * d
  {
    DivBounds(n, d);
    MulLe(n / d + 1, bound, d);
    assert (n / d + 1) * d == n / d * d + d;
  }

  // The case in which the sign bit makes the mantissa move down a byte.
  lemma MovedMantissa(n: nat)
    requires n > 0 && LeadingBytes(n) >= 0x80_0000
    ensures var e, m, N := ByteLength(n) + 1, LeadingBytes(n) / 256, n * 0x100_0000;
            m == N / Pow256(e) && 0x8000 <= m < 0x1_0000 &&
            (e <= 3 ==> m * Pow256(e) == N) &&
            0x8000 * Pow256(e) <= N < 0x80_0000 * Pow256(e)
  {
    LeadingBytesScaled(n);
    var s, v, N := ByteLength(n), LeadingBytes(n), n * 0x100_0000;
    var p := Pow256(s);
    DivDiv(N, p, 256);
    assert Pow256(s + 1) == p * 256;
    DivBounds(N, p);
    MulLe(0x80_0000, v, p);
    if s + 1 <= 3 {
      assert v == 256 * Up(n, 2 - s);
      assert v / 256 * (256 * p) == v * p;
    }
  }

  lemma LeadingBytesBelow(n: nat)
    ensures LeadingBytes(n) < 0x100_0000
  {
    if n > 0 { LeadingBytesScaled(n); } else { LeadingBytesZero(n); }
  }

  // The parts of an encoding lie in the ranges of its two fields.
  lemma EncodedMantissaRange(n: nat)
    requires n > 0
    ensures 0x8000 <= EncodedMantissa(n) < 0x80_0000
  {
    EncodingMeans(n);
  }

  // At most one exponent brings a number into that range.
  lemma ExponentUnique(e: nat, f: nat, low: nat, high: nat)
    requires low <= high
    requires 0x8000 * Pow256(e) <= low && high < 0x80_0000 * Pow256(f)
    ensures e <= f
  {
    if f < e { Pow256Monotone(f, e); }
  }

  /** Every pair of an exponent and a mantissa in that range that loses nothing is an encoding. */
  lemma EncodingOf(e: nat, m: nat)
    requires 0x8000 <= m < 0x80_0000
    requires m * Pow256(e) % 0x100_0000 == 0
    ensures Denoted(e, m) > 0
    ensures EncodedExponent(Denoted(e, m)) == e && EncodedMantissa(Denoted(e, m)) == m
  {
    var n := Denoted(e, m);
    DenotedMeans(e, m);
    assert n * 0x100_0000 == m * Pow256(e);
    MulLe(1, m, Pow256(e));
    EncodingMeans(n);
    MulLe(0x8000, m, Pow256(e));
    MulLe(m + 1, 0x80_0000, Pow256(e));
    assert (m + 1) * Pow256(e) == m * Pow256(e) + Pow256(e);
    ExponentUnique(e, EncodedExponent(n), n * 0x100_0000, n * 0x100_0000);
    ExponentUnique(EncodedExponent(n), e, n * 0x100_0000, n * 0x100_0000);
    MulDivCancel(m, Pow256(e));
  }

  // From exponent 3 on a mantissa stands for a whole number.
  lemma LargeIsWhole(e: nat, m: nat)
    requires e >= 3
    ensures m * Pow256(e) == m * Pow256(e - 3) * 0x100_0000
    ensures m * Pow256(e) % 0x100_0000 == 0
    ensures Denoted(e, m) == m * Pow256(e - 3)
  {
    Pow256Add(e - 3, 3);
    Pow256Values();
    var q := Pow256(e - 3);
    assert m * (q * 0x100_0000) == m * q * 0x100_0000;
    MulDivCancel(m * q, 0x100_0000);
    DenotedMeans(e, m);
  }

  // An encoded mantissa stands for a whole number.
  lemma EncodedIsWhole(n: nat)
    requires n > 0
    ensures EncodedMantissa(n) * Pow256(EncodedExponent(n)) % 0x100_0000 == 0
  {
    EncodingMeans(n);
    if EncodedExponent(n) <= 3 {
      MulDivCancel(n, 0x100_0000);
    } else {
      LargeIsWhole(EncodedExponent(n), EncodedMantissa(n));
    }
  }

  // In the next three lemmas the argument stands for 0, which as a literal would make the solver unfold everything.
  lemma LeadingBytesZero(n: nat)
    requires n == 0
    ensures LeadingBytes(n) == 0
  {
    assert Up(n, 1) == 0 && Up(n, 2) == 0;
  }

  lemma EncodeZero(n: nat)
    requires n == 0
    ensures EncodedExponent(n) == 0 && EncodedMantissa(n) == 0 && Encode(n) == 0
  {
    LeadingBytesZero(n);
  }

  lemma DecodeZero(c: nat)
    requires c == 0
    ensures Decode(c) == 0
  {
    FieldBits(c);
    assert Up(c, c) == 0;
    assert Down(c, 1) == 0 && Down(c, 2) == 0;
  }

  // An encoding decodes to no more than the number.
  lemma DecodeEncodeBelow(n: nat)
    ensures Decode(Encode(n)) <= n
  {
    if n > 0 { DecodeEncode(n); } else { EncodeZero(n); DecodeZero(n); }
  }

  lemma FieldsOf(e: nat, m: nat)
    requires m < 0x80_0000
    ensures var c := Compose(e, m); Exponent(c) == e && Mantissa(c) == m && !SignBit(c)
  {
    FieldBits(Compose(e, m));
    ComposedParts(Compose(e, m), e, m);
  }

  lemma ComposedParts(c: nat, e: nat, m: nat)
    requires c == e * 0x100_0000 + m && m < 0x80_0000
    ensures c / 0x100_0000 == e && c % 0x80_0000 == m && c / 0x80_0000 == 2 * e
  {
    DivUnique(c, 0x100_0000, e, m);
    DivUnique(c, 0x80_0000, 2 * e, m);
  }

  lemma MantissaBelow(compact: nat)
    ensures Mantissa(compact) < 0x80_0000
  {
    FieldBits(compact);
  }

  // Splitting an encoding gives its two parts back.
  lemma EncodeParts(n: nat)
    ensures Exponent(Encode(n)) == EncodedExponent(n) && Mantissa(Encode(n)) == EncodedMantissa(n)
    ensures !SignBit(Encode(n))
  {
    var e, m := EncodedExponent(n), EncodedMantissa(n);
    assert m < 0x80_0000 by {
      if n > 0 { EncodedMantissaRange(n); } else { EncodeZero(n); }
    }
    FieldsOf(e, m);
  }

  // ---------- main results ----------

  /** Encoding and decoding a 256-bit number loses less than one part in 2^15. */
  lemma DecodeEncode(n: nat)
    requires n > 0
    ensures var t := Decode(Encode(n)); t <= n && (n - t) * 0x8000 < n
  {
    EncodeParts(n);
    EncodingMeans(n);
    EncodedIsWhole(n);
    var e, m, N := EncodedExponent(n), EncodedMantissa(n), n * 0x100_0000;
    var t := Decode(Encode(n));
    DenotedMeans(e, m);
    assert t * 0x100_0000 == m * Pow256(e);
    DivBounds(N, Pow256(e));
    assert (N - t * 0x100_0000) * 0x8000 < Pow256(e) * 0x8000 <= N;
  }

  /** The decoded value has the same encoding again. */
  lemma EncodeIdempotent(n: nat)
    ensures Encode(Decode(Encode(n))) == Encode(n)
  {
    EncodeParts(n);
    if n > 0 {
      EncodingMeans(n);
      EncodedIsWhole(n);
      EncodingOf(EncodedExponent(n), EncodedMantissa(n));
    } else {
      EncodeZero(n);
      DecodeZero(n);
    }
  }

  /** A larger number never has a smaller encoding. */
  lemma EncodeMonotone(a: nat, b: nat)
    requires a <= b
    ensures Encode(a) <= Encode(b)
  {
    if a > 0 {
      EncodingMeans(a);
      EncodingMeans(b);
      var e, f := EncodedExponent(a), EncodedExponent(b);
      ExponentUnique(e, f, a * 0x100_0000, b * 0x100_0000);
      if e == f {
        DivMonotone(a * 0x100_0000, b * 0x100_0000, Pow256(e));
      }
    }
  }

  lemma DivMonotone(a: nat, b: nat, d: nat)
    requires a <= b && d > 0
    ensures a / d <= b / d
  {
    DivBounds(a, d);
    DivBounds(b, d);
    if b / d < a / d { MulLe(b / d + 1, a / d, d); }
  }

  // A compact value in normal form: no sign, a mantissa of full length, no bits shifted out.
  predicate Canonical(compact: nat) {
    compact == 0 ||
    (!SignBit(compact) && Mantissa(compact) >= 0x8000 &&
     Mantissa(compact) * Pow256(Exponent(compact)) % 0x100_0000 == 0)
  }

  /** Decoding and encoding again reproduces exactly the values in normal form. */
  lemma EncodeDecode(compact: nat)
    ensures Encode(Decode(compact)) == compact <==> Canonical(compact)
  {
    if Canonical(compact) {
      CanonicalIsEncoding(compact);
    } else if Encode(Decode(compact)) == compact {
      EncodingIsCanonical(Decode(compact));
    }
  }

  lemma CanonicalIsEncoding(compact: nat)
    requires Canonical(compact)
    ensures Encode(Decode(compact)) == compact
  {
    if compact == 0 {
      EncodeZero(compact);
      DecodeZero(compact);
    } else {
      MantissaBelow(compact);
      EncodingOf(Exponent(compact), Mantissa(compact));
      FieldsDetermine(compact);
    }
  }

  /** Every encoding is in normal form. */
  lemma EncodingIsCanonical(n: nat)
    ensures Canonical(Encode(n))
  {
    EncodeParts(n);
    if n > 0 {
      EncodedMantissaRange(n);
      EncodedIsWhole(n);
    } else {
      EncodeZero(n);
    }
  }

  // The source's overflow test.
  predicate OverflowTest(compact: nat) {
    var word, size := UsedMantissa(compact), Exponent(compact);
    word != 0 && (size > 34 || (word > 0xff && size > 33) || (word > 0xffff && size > 32))
  }

  // k stands for 32, which as a literal would make the solver unfold the powers.
  lemma LimitIsPow256(k: nat)
    requires k == 32
    ensures Pow256(k) == LIMIT && Pow256(k - 1) * 0x100 == LIMIT && Pow256(k - 2) * 0x1_0000 == LIMIT
  {
    var two := k - 30;
    assert Pow256(two - 1) == 256 * Pow256(two - 2);
    Pow256Add(two, two);
    Pow256Add(two * 2, two * 2);
    Pow256Add(two * 4, two * 4);
    Pow256Add(two * 8, two * 8);
  }

  lemma ProductReaches(m: nat, p: nat, f: nat)
    requires p > 0 && f > 0
    ensures m * p >= p * f <==> m >= f
  {
    if m >= f { MulLe(f, m, p); } else { MulLe(m + 1, f, p); }
  }

  // Up to exponent 32 every mantissa fits.
  lemma SmallExponentFits(e: nat, m: nat)
    requires e <= 32 && m < 0x80_0000
    ensures Denoted(e, m) < LIMIT
  {
    var k: nat :| k == 32; // not a literal: the powers of one would be unfolded
    LimitIsPow256(k);
    Pow256Monotone(e, k);
    MulLe(m + 1, 0x100_0000, Pow256(e));
    DenotedMeans(e, m);
  }

  lemma LargeExponentFits(e: nat, m: nat)
    requires 33 <= e && m < 0x80_0000
    ensures Denoted(e, m) >= LIMIT <==> m > 0 && (e >= 35 || (e == 34 && m >= 0x100) || (e == 33 && m >= 0x1_0000))
  {
    var k: nat :| k == 32; // not a literal: the powers of one would be unfolded
    LimitIsPow256(k);
    LargeIsWhole(e, m);
    if e >= 35 {
      Pow256Monotone(k, e - 3);
      if m > 0 { MulLe(1, m, Pow256(e - 3)); }
    } else if e == 34 {
      assert e - 3 == k - 1;
      ProductReaches(m, Pow256(e - 3), 0x100);
    } else {
      assert e - 3 == k - 2;
      ProductReaches(m, Pow256(e - 3), 0x1_0000);
    }
  }

  /** The overflow flag is set exactly when the number denoted does not fit in 256 bits. */
  lemma OverflowExact(compact: uint32)
    ensures OverflowTest(compact) <==> Decode(compact) >= LIMIT
  {
    var e, m := Exponent(compact), Mantissa(compact);
    MantissaBelow(compact);
    if e <= 32 { SmallExponentFits(e, m); } else { LargeExponentFits(e, m); }
  }

  // What is left of the mantissa and the number denoted.
  lemma UsedMantissaMeans(compact: nat)
    ensures UsedMantissa(compact) == 0 <==> Decode(compact) == 0
    ensures Exponent(compact) <= 3 ==> UsedMantissa(compact) == Decode(compact)
    ensures Exponent(compact) > 3 ==> Decode(compact) == Up(UsedMantissa(compact), Exponent(compact) - 3)
  {
    var e, m := Exponent(compact), Mantissa(compact);
    if e <= 3 {
      Pow256Values();
      Pow256Add(3 - e, e);
      DenotedMeans(e, m);
      DownIsDiv(m, 3 - e);
      DivScale(m, Pow256(3 - e), Pow256(e));
    } else {
      LargeIsWhole(e, m);
      UpIsMul(m, e - 3);
      if m > 0 { MulLe(1, m, Pow256(e - 3)); }
    }
  }

  /** The encoding of a 256-bit number fits its 32 bits, leaves the sign bit clear and does not overflow. */
  lemma EncodeFits(n: uint256)
    ensures EncodedMantissa(n) < 0x80_0000 && EncodedExponent(n) <= 33
    ensures Encode(n) < 0x1_0000_0000 && !IsNegative(Encode(n)) && !OverflowTest(Encode(n))
  {
    EncodedPartsFit(n);
    EncodeParts(n);
    DecodeEncodeBelow(n);
    var c := Encode(n);
    OverflowExact(c);
  }

  lemma EncodedPartsFit(n: uint256)
    ensures EncodedMantissa(n) < 0x80_0000 && EncodedExponent(n) <= 33
  {
    ByteLengthOfWord(n);
    if n > 0 { EncodedMantissaRange(n); } else { EncodeZero(n); }
  }

  lemma ByteLengthOfWord(n: uint256)
    ensures ByteLength(n) <= 32
  {
    if n > 0 {
      var k: nat :| k == 32; // not a literal: the powers of one would be unfolded
      LimitIsPow256(k);
      ByteLengthBounds(n);
      if ByteLength(n) > k { Pow256Monotone(k, ByteLength(n) - 1); }
    }
  }

  // ---------- the class ----------

  class Compact {
    var normal: nat
    var compact: nat
    var negative: bool
    var overflowed: bool

    // Construct from a compact number; the compact field becomes the re-encoding of its value.
    constructor FromCompact(c: uint32)
      ensures normal == Wrap256(Decode(c))
      ensures negative <==> c / 0x80_0000 % 2 == 1 && Decode(c) != 0
      ensures overflowed <==> Decode(c) >= LIMIT
      ensures compact == Encode(normal)
    {
      normal, compact, negative, overflowed := 0, 0, false, false;
      new;
      SetCompact(c);
      GetCompact();
    }

    constructor FromNormal(n: uint256)
      ensures normal == n && compact == Encode(n) && !negative && !overflowed
    {
      normal, compact, negative, overflowed := n, 0, false, false;
      new;
      GetCompact();
    }

    static method LogicalSize(v: uint256) returns (byte: nat)
      ensures byte == ByteLength(v)
      ensures v > 0 ==> byte > 0 && Pow256(byte - 1) <= v < Pow256(byte)
    {
      var value: nat := v;
      byte := 0;
      while value != 0
        invariant byte + ByteLength(value) == ByteLength(v)
        decreases value
      {
        ShrIsDiv(value, 8);
        Pow2Values();
        value := Shr(value, 8);
        byte := byte + 1;
      }
      if v > 0 { ByteLengthBounds(v); }
    }

    method SetCompact(c: uint32)
      modifies this
      ensures normal == Wrap256(Decode(c))
      ensures negative <==> c / 0x80_0000 % 2 == 1 && Decode(c) != 0
      ensures overflowed <==> Decode(c) >= LIMIT
      ensures compact == old(compact)
    {
      FieldBits(c);
      var size := Shr(c, 24);
      var word := And(c, 0x007f_ffff);
      UsedMantissaMeans(c);
      OverflowExact(c);
      if size <= 3 {
        ShiftDownBytes(word, 3 - size);
        word := Shr(word, 8 * (3 - size));
        normal := word;
      } else {
        ShiftUpBytes(word, size - 3);
        normal := word;
        normal := Wrap256(Shl(normal, 8 * (size - 3)));
      }
      negative := word != 0 && And(c, 0x0080_0000) != 0;
      overflowed := word != 0 && (size > 34 || (word > 0xff && size > 33) || (word > 0xffff && size > 32));
    }

    method GetCompact()
      requires normal < LIMIT
      modifies this`compact
      ensures compact == Encode(normal)
    {
      var size := LogicalSize(normal);
      if size <= 3 {
        ShiftUpBytes(normal, 3 - size);
        compact := Shl(normal, 8 * (3 - size));
      } else {
        ShiftDownBytes(normal, size - 3);
        compact := Shr(normal, 8 * (size - 3));
      }
      assert compact == LeadingBytes(normal);
      SignBitOfLeading(normal);
      if And(compact, 0x0080_0000) != 0 {
        ShiftDownBytes(compact, 1);
        compact := Shr(compact, 8);
        size := size + 1;
      }
      assert compact == EncodedMantissa(normal) && size == EncodedExponent(normal);
      // the two asserts of the source
      EncodeFits(normal);
      assert compact <= 0x007f_ffff;
      assert size < 256;
      ComposeFields(size, compact);
      compact := Or(compact, Shl(size, 24));
    }
  }

  // The test for the sign bit of the leading bytes.
  lemma SignBitOfLeading(n: nat)
    ensures And(LeadingBytes(n), 0x0080_0000) != 0 <==> LeadingBytes(n) >= 0x80_0000
  {
    LeadingBytesBelow(n);
    FieldBits(LeadingBytes(n));
  }

  lemma ComposeFields(size: nat, word: nat)
    requires word < 0x100_0000
    ensures Or(word, Shl(size, 24)) == Compose(size, word)
  {
    Pow2Values();
    ShlIsMul(size, 24);
    OrDisjoint(word, size, 24);
  }

  // Shifts by whole bytes.
  lemma ShiftDownBytes(n: nat, k: nat)
    ensures Shr(n, 8 * k) == Down(n, k)
  {
    Pow256IsPow2(k);
    ShrIsDiv(n, 8 * k);
    DownIsDiv(n, k);
  }

  lemma ShiftUpBytes(n: nat, k: nat)
    ensures Shl(n, 8 * k) == Up(n, k)
  {
    Pow256IsPow2(k);
    ShlIsMul(n, 8 * k);
    UpIsMul(n, k);
  }

  lemma {:induction false} AndPow2(a: nat, k: nat)
    ensures And(a, Pow2(k)) == if Shr(a, k) % 2 == 1 then Pow2(k) else 0
  {
    if k == 0 {
      assert And(a / 2, 0) == 0;
    } else if a > 0 {
      AndPow2(a / 2, k - 1);
    } else {
      AndPow2(0, k - 1);
    }
  }

  /** The three fields as arithmetic. */
  lemma FieldBits(c: nat)
    ensures Exponent(c) == c / 0x100_0000
    ensures Mantissa(c) == c % 0x80_0000
    ensures SignBit(c) <==> c / 0x80_0000 % 2 == 1
  {
    Pow2Values();
    ShrIsDiv(c, 24);
    AndMask(c, 23);
    AndPow2(c, 23);
    ShrIsDiv(c, 23);
  }

  lemma FieldsDetermine(c: nat)
    requires !SignBit(c)
    ensures c == Compose(Exponent(c), Mantissa(c))
  {
    FieldBits(c);
  }
}

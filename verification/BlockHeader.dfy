/** Block headers and the work they stand for. */
module BlockHeaders {
  import opened Bits
  import opened Bytes
  import opened CompactTarget

  datatype BlockHeader = BlockHeader(
    version: int32,
    prevBlockHash: Hash256,
    merkleRootHash: Hash256,
    time: uint32,
    bits: uint32,
    nonce: uint32)

  // The bits denote a target that a block hash can be compared with.
  predicate ValidTarget(bits: uint32) {
    !IsNegative(bits) && Decode(bits) < LIMIT && Decode(bits) != 0
  }

  // The expected number of hashes for a target: 2^256 / (target + 1), rounded down.
  function ExpectedHashes(target: nat): nat {
    LIMIT / (target + 1)
  }

  function BlockProof(bits: uint32): nat {
    if ValidTarget(bits) then ExpectedHashes(Decode(bits)) else 0
  }

  // ~target
  function Complement(target: uint256): uint256 { LIMIT - 1 - target }

  // The division that never leaves 256 bits.
  lemma ProofIdentity(target: uint256)
    requires target > 0
    ensures Complement(target) / (target + 1) + 1 == ExpectedHashes(target)
    ensures 0 < ExpectedHashes(target) < LIMIT
  {
    var d := target + 1;
    var q, r := Complement(target) / d, Complement(target) % d;
    assert Complement(target) == q * d + r;
    assert LIMIT == (q + 1) * d + r by { assert (q + 1) * d == q * d + d; }
    DivUnique(LIMIT, d, q + 1, r);
    MulLe(2, d, q + 1);
  }

  // A target counts exactly when it is positive, in 256 bits, and its sign bit is clear.
  lemma {:induction false} ProofMeans(bits: uint32)
    ensures var t, proof := Decode(bits), BlockProof(bits);
            && (proof == 0 <==> bits / 0x80_0000 % 2 == 1 || t == 0 || t >= LIMIT)
            && (proof != 0 ==> proof * (t + 1) <= LIMIT < (proof + 1) * (t + 1))
  {
    DecodeMeans(bits);
    if ValidTarget(bits) {
      ProofIdentity(Decode(bits));
      ExpectedBounds(Decode(bits));
    }
  }

  lemma ExpectedBounds(t: nat)
    ensures ExpectedHashes(t) * (t + 1) <= LIMIT < (ExpectedHashes(t) + 1) * (t + 1)
  {
    var d, q := t + 1, LIMIT / (t + 1);
    DivBounds(LIMIT, d);
    assert (q + 1) * d == q * d + d;
  }

  /** A block's proof is the quotient of 2^256 by the target plus one, computed with no intermediate value of more than
      256 bits, and zero for a target that is negative, zero or too large. */
  method GetBlockProof(header: BlockHeader) returns (proof: uint256)
    ensures proof == BlockProof(header.bits)
    ensures var t := Decode(header.bits);
            && (proof == 0 <==> header.bits / 0x80_0000 % 2 == 1 || t == 0 || t >= LIMIT)
            && (proof != 0 ==> proof * (t + 1) <= LIMIT < (proof + 1) * (t + 1))
  {
    ProofMeans(header.bits);
    var compact := new Compact.FromCompact(header.bits);
    var target: uint256 := compact.normal;
    if compact.negative || compact.overflowed || target == 0 {
      return 0;
    }
    ProofIdentity(target);
    var divisor: uint256 := Wrap256(target + 1);
    assert divisor == target + 1 by { LargestTarget(header.bits); }
    proof := Complement(target) / divisor + 1;
  }

  // No target is 2^256 - 1, so target + 1 does not wrap.
  lemma LargestTarget(bits: uint32)
    requires Decode(bits) < LIMIT
    ensures Decode(bits) + 1 < LIMIT
  {
    MantissaBelow(bits);
    UsedMantissaMeans(bits);
    if Exponent(bits) > 3 {
      BelowMultiple(Up(UsedMantissa(bits), Exponent(bits) - 4));
    } else {
      DownBelow(Mantissa(bits), 3 - Exponent(bits));
    }
  }

  // A multiple of 256 below 2^256 is not the largest number below it.
  lemma BelowMultiple(n: nat)
    requires 256 * n < LIMIT
    ensures 256 * n + 1 < LIMIT
  {
  }

  lemma {:induction false} DownBelow(n: nat, k: nat)
    ensures Down(n, k) <= n
  {
    if k > 0 { DownBelow(n / 256, k - 1); }
  }

  /** An easier target never stands for more work. */
  lemma WorkIsAntitone(a: uint32, b: uint32)
    requires ValidTarget(a) && ValidTarget(b) && Decode(a) <= Decode(b)
    ensures BlockProof(a) >= BlockProof(b) > 0
  {
    var s, t := Decode(a) + 1, Decode(b) + 1;
    var p, q := BlockProof(a), BlockProof(b);
    ProofIdentity(Decode(b));
    DivBounds(LIMIT, s);
    DivBounds(LIMIT, t);
    MulLe(s, t, q);
    assert (p + 1) * s == p * s + s;
    if p < q {
      MulLe(p + 1, q, s);
      assert false;
    }
  }
}

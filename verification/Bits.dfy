/** Bit operations of the source on unsigned integers, written out on unbounded naturals. */
module Bits {

  function Pow2(k: nat): (p: nat)
    ensures p > 0
  {
    if k == 0 then 1 else 2 * Pow2(k - 1)
  }

  // a & b
  function And(a: nat, b: nat): nat {
    if a == 0 || b == 0 then 0
    else (if a % 2 == 1 && b % 2 == 1 then 1 else 0) + 2 * And(a / 2, b / 2)
  }

  // a | b
  function Or(a: nat, b: nat): nat
    decreases a + b
  {
    if a == 0 then b
    else if b == 0 then a
    else (if a % 2 == 1 || b % 2 == 1 then 1 else 0) + 2 * Or(a / 2, b / 2)
  }

  // n >> k
  function Shr(n: nat, k: nat): nat {
    if k == 0 then n else Shr(n / 2, k - 1)
  }

  // n << k
  function Shl(n: nat, k: nat): nat {
    if k == 0 then n else 2 * Shl(n, k - 1)
  }

  // n & ~(1 << k)
  function ClearBit(n: nat, k: nat): nat {
    if k == 0 then n - n % 2 else n % 2 + 2 * ClearBit(n / 2, k - 1)
  }

  // The number of one bits.
  function PopCount(n: nat): nat {
    if n == 0 then 0 else n % 2 + PopCount(n / 2)
  }

  lemma {:induction false} Pow2Add(a: nat, b: nat)
    ensures Pow2(a + b) == Pow2(a) * Pow2(b)
  {
    if a > 0 {
      Pow2Add(a - 1, b);
      assert 2 * (Pow2(a - 1) * Pow2(b)) == Pow2(a) * Pow2(b);
    }
  }

  lemma Pow2Values()
    ensures Pow2(8) == 0x100 && Pow2(16) == 0x1_0000 && Pow2(23) == 0x80_0000 && Pow2(24) == 0x100_0000
    ensures Pow2(32) == 0x1_0000_0000
  {
    assert Pow2(7) == 128;
    Pow2Add(8, 8);
    Pow2Add(16, 7);
    Pow2Add(16, 8);
    Pow2Add(24, 8);
  }

  lemma Pow2Of64()
    ensures Pow2(64) == 0x1_0000_0000_0000_0000
  {
    Pow2Values();
    Pow2Add(32, 32);
  }

  lemma {:induction false} AndSelf(n: nat)
    ensures And(n, n) == n
  {
    if n > 0 { AndSelf(n / 2); }
  }

  lemma {:induction false} AndCommutes(a: nat, b: nat)
    ensures And(a, b) == And(b, a)
  {
    if a > 0 && b > 0 { AndCommutes(a / 2, b / 2); }
  }

  // A shift to the right is a division.
  lemma {:induction false} ShrIsDiv(n: nat, k: nat)
    ensures Shr(n, k) == n / Pow2(k)
  {
    if k > 0 {
      ShrIsDiv(n / 2, k - 1);
      DivDiv(n, 2, Pow2(k - 1));
    }
  }

  // A shift to the left is a multiplication.
  lemma {:induction false} ShlIsMul(n: nat, k: nat)
    ensures Shl(n, k) == n * Pow2(k)
  {
    if k > 0 {
      ShlIsMul(n, k - 1);
      assert 2 * (n * Pow2(k - 1)) == n * (2 * Pow2(k - 1));
    }
  }

  lemma DivDiv(n: nat, a: nat, b: nat)
    requires a > 0 && b > 0
    ensures a * b > 0 && n / a / b == n / (a * b)
  {
    var q := n / a / b;
    var r := n / a - q * b;
    var s := n - (n / a) * a;
    assert n == (q * b + r) * a + s;
    assert (q * b + r) * a == q * (a * b) + r * a by {
      assert (q * b + r) * a == (q * b) * a + r * a;
      assert (q * b) * a == q * (a * b);
    }
    assert r * a <= (b - 1) * a by { MulLe(r, b - 1, a); }
    assert (b - 1) * a == a * b - a;
    assert 0 <= r * a + s < a * b;
    DivUnique(n, a * b, q, r * a + s);
  }

  lemma MulLe(x: int, y: int, z: nat)
    requires x <= y
    ensures x * z <= y * z
  {
  }

  lemma DivUnique(n: int, d: int, q: int, r: int)
    requires d > 0 && n == q * d + r && 0 <= r < d
    ensures n / d == q && n % d == r
  {
    var q', r' := n / d, n % d;
    assert n == q' * d + r';
    assert (q - q') * d == r' - r;
    if q > q' {
      MulLe(1, q - q', d);
      assert false;
    } else if q < q' {
      assert (q' - q) * d == r - r';
      MulLe(1, q' - q, d);
      assert false;
    }
  }

  // A mask of k low ones keeps the remainder.
  lemma {:induction false} AndMask(a: nat, k: nat)
    ensures And(a, Pow2(k) - 1) == a % Pow2(k)
  {
    if k > 0 {
      var p := Pow2(k - 1);
      AndMask(a / 2, k - 1);
      AndDouble(a, p - 1);
      ModDouble(a / 2, a % 2, p);
      assert a == 2 * (a / 2) + a % 2;
    }
  }

  lemma AndDouble(a: nat, m: nat)
    ensures And(a, 2 * m + 1) == a % 2 + 2 * And(a / 2, m)
  {
    assert (2 * m + 1) / 2 == m;
  }

  lemma ModDouble(h: nat, b: nat, p: nat)
    requires b < 2 && p > 0
    ensures (2 * h + b) % (2 * p) == 2 * (h % p) + b
  {
    var q, r := h / p, h % p;
    assert q * (2 * p) == 2 * (q * p);
    DivUnique(2 * h + b, 2 * p, q, 2 * r + b);
  }

  // Or of numbers that share no bit is their sum.
  lemma {:induction false} OrDisjoint(a: nat, b: nat, k: nat)
    requires a < Pow2(k)
    ensures Or(a, Shl(b, k)) == a + Shl(b, k)
  {
    if k == 0 {
    } else {
      OrDisjoint(a / 2, b, k - 1);
    }
  }

  lemma {:induction false} ShrMonotone(a: nat, b: nat, k: nat)
    requires a <= b
    ensures Shr(a, k) <= Shr(b, k)
  {
    if k > 0 { ShrMonotone(a / 2, b / 2, k - 1); }
  }

  // The bits of n below position k number at most k.
  lemma {:induction false} PopCountLow(n: nat, k: nat)
    ensures PopCount(Shr(n, k)) <= PopCount(n) <= PopCount(Shr(n, k)) + k
    ensures n % 2 == 0 && k > 0 ==> PopCount(n) < PopCount(Shr(n, k)) + k
  {
    if k > 0 && n > 0 {
      PopCountLow(n / 2, k - 1);
    } else if k > 0 {
      PopCountLow(0, k - 1);
    }
  }

  lemma {:induction false} OrCommutes(a: nat, b: nat)
    ensures Or(a, b) == Or(b, a)
    decreases a
  {
    if a > 0 && b > 0 { OrCommutes(a / 2, b / 2); }
  }

  // A mask of high bits only looks at the high bits.
  lemma {:induction false} AndShifted(a: nat, m: nat, k: nat)
    ensures And(a, Shl(m, k)) == Shl(And(Shr(a, k), m), k)
  {
    if k > 0 {
      AndShifted(a / 2, m, k - 1);
      AndEven(a, Shl(m, k - 1));
    }
  }

  lemma AndEven(a: nat, m: nat)
    ensures And(a, 2 * m) == 2 * And(a / 2, m)
  {
    assert (2 * m) / 2 == m && (2 * m) % 2 == 0;
  }

  lemma {:induction false} OrBelow(a: nat, b: nat, k: nat)
    requires a < Pow2(k) && b < Pow2(k)
    ensures Or(a, b) < Pow2(k)
    decreases k
  {
    if k > 0 && a > 0 && b > 0 { OrBelow(a / 2, b / 2, k - 1); }
  }

  lemma {:induction false} OrBit(a: nat, b: nat, j: nat)
    ensures Bit(Or(a, b), j) <==> Bit(a, j) || Bit(b, j)
    decreases a + b
  {
    if a == 0 || b == 0 {
      NoBit(j);
    } else {
      OrBit(a / 2, b / 2, if j == 0 then 0 else j - 1);
      assert Or(a, b) / 2 == Or(a / 2, b / 2);
    }
  }

  lemma {:induction false} BitIsDigit(n: nat, k: nat)
    ensures Bit(n, k) <==> n / Pow2(k) % 2 == 1
  {
    if k > 0 {
      BitIsDigit(n / 2, k - 1);
      DivDiv(n, 2, Pow2(k - 1));
    }
  }

  // Clearing a bit that is set subtracts it.
  lemma {:induction false} ClearBitSubtracts(n: nat, k: nat)
    requires n / Pow2(k) % 2 == 1
    ensures ClearBit(n, k) == n - Pow2(k)
  {
    if k > 0 {
      DivDiv(n, 2, Pow2(k - 1));
      ClearBitSubtracts(n / 2, k - 1);
    }
  }

  // Bit k of n.
  predicate Bit(n: nat, k: nat) {
    if k == 0 then n % 2 == 1 else Bit(n / 2, k - 1)
  }

  lemma {:induction false} ClearBitBit(n: nat, k: nat, j: nat)
    ensures Bit(ClearBit(n, k), j) <==> j != k && Bit(n, j)
    ensures ClearBit(n, k) <= n
  {
    if k == 0 {
      assert (n - n % 2) / 2 == n / 2;
    } else {
      ClearBitBit(n / 2, k - 1, if j == 0 then 0 else j - 1);
      assert ClearBit(n, k) / 2 == ClearBit(n / 2, k - 1) && ClearBit(n, k) % 2 == n % 2;
    }
  }

  lemma {:induction false} NoBit(k: nat)
    ensures !Bit(0, k)
  {
    if k > 0 { NoBit(k - 1); }
  }

  lemma {:induction false} AndBit(a: nat, b: nat, j: nat)
    ensures Bit(And(a, b), j) <==> Bit(a, j) && Bit(b, j)
    ensures And(a, b) <= a
  {
    if a == 0 || b == 0 {
      NoBit(j);
    } else {
      AndBit(a / 2, b / 2, if j == 0 then 0 else j - 1);
      assert And(a, b) / 2 == And(a / 2, b / 2);
    }
  }

  // Numbers below 2^k with the same k low bits are the same.
  lemma {:induction false} SameBits(a: nat, b: nat, k: nat)
    requires a < Pow2(k) && b < Pow2(k) && forall j :: 0 <= j < k ==> Bit(a, j) == Bit(b, j)
    ensures a == b
  {
    if k > 0 {
      assert Bit(a, 0) == Bit(b, 0);
      forall j | 0 <= j < k - 1
        ensures Bit(a / 2, j) == Bit(b / 2, j)
      {
        assert Bit(a, j + 1) == Bit(b, j + 1);
      }
      SameBits(a / 2, b / 2, k - 1);
    }
  }

  // ---------- powers of 256 ----------

  function Pow256(k: nat): (p: nat)
    ensures p > 0
  {
    if k == 0 then 1 else 256 * Pow256(k - 1)
  }

  lemma {:induction false} Pow256Add(a: nat, b: nat)
    ensures Pow256(a + b) == Pow256(a) * Pow256(b)
  {
    if a > 0 {
      Pow256Add(a - 1, b);
      assert 256 * (Pow256(a - 1) * Pow256(b)) == Pow256(a) * Pow256(b);
    }
  }

  lemma {:induction false} Pow256IsPow2(k: nat)
    ensures Pow256(k) == Pow2(8 * k)
  {
    if k > 0 {
      Pow256IsPow2(k - 1);
      Pow2Add(8, 8 * (k - 1));
      assert Pow2(8) == 256;
    }
  }
}

/** The heights a block's skip pointer jumps to, and how many steps a walk over them takes. */
module SkipList {
  import opened Bits

  // ---------- the bit tricks of the source ----------

  // n & (n - 1); for zero the source computes 0 & -1.
  function InvertLowestOne(n: nat): (r: nat)
    ensures r == ClearLowest(n)
  {
    AndWithPrevious(n);
    if n == 0 then 0 else And(n, n - 1)
  }

  function GetSkipHeight(height: nat): (r: nat)
    ensures r == SkipHeight(height)
  {
    AndOne(height);
    if height < 2 then 0
    else if And(height, 1) == 1 then InvertLowestOne(InvertLowestOne(height - 1)) + 1
    else InvertLowestOne(height)
  }

  // ---------- what they compute ----------

  // n without its lowest one bit
  function ClearLowest(n: nat): nat {
    if n == 0 then 0
    else if n % 2 == 1 then n - 1
    else 2 * ClearLowest(n / 2)
  }

  function SkipHeight(height: nat): nat {
    if height < 2 then 0
    else if height % 2 == 1 then ClearLowest(ClearLowest(height - 1)) + 1
    else ClearLowest(height)
  }

  lemma {:induction false} AndWithPrevious(n: nat)
    ensures n > 0 ==> And(n, n - 1) == ClearLowest(n)
  {
    if n > 0 {
      var q := n / 2;
      if n % 2 == 1 {
        assert (n - 1) / 2 == q;
        AndSelf(q);
      } else {
        assert (n - 1) / 2 == q - 1;
        AndWithPrevious(q);
      }
    }
  }

  lemma AndOne(n: nat)
    ensures And(n, 1) == n % 2
  {
    if n > 0 { assert And(n / 2, 0) == 0; }
  }

  lemma ClearDouble(q: nat)
    ensures ClearLowest(2 * q) == 2 * ClearLowest(q)
    ensures ClearLowest(2 * q + 1) == 2 * q
  {
    assert (2 * q) / 2 == q && (2 * q) % 2 == 0;
    assert (2 * q + 1) % 2 == 1;
  }

  // The lowest one bit of (2q + 1) * 2^k is bit k.
  lemma {:induction false} ClearLowestMeans(q: nat, k: nat)
    ensures ClearLowest((2 * q + 1) * Pow2(k)) == 2 * q * Pow2(k)
  {
    if k == 0 {
      ClearDouble(q);
    } else {
      var half := (2 * q + 1) * Pow2(k - 1);
      assert (2 * q + 1) * Pow2(k) == 2 * half && 2 * q * Pow2(k) == 2 * (2 * q * Pow2(k - 1));
      ClearDouble(half);
      ClearLowestMeans(q, k - 1);
    }
  }

  /** An even height loses its lowest one bit. */
  lemma EvenSkipMeans(q: nat, k: nat)
    requires k > 0
    ensures SkipHeight((2 * q + 1) * Pow2(k)) == 2 * q * Pow2(k)
  {
    var half := (2 * q + 1) * Pow2(k - 1);
    assert (2 * q + 1) * Pow2(k) == 2 * half;
    MulLe(1, 2 * q + 1, Pow2(k - 1));
    ClearLowestMeans(q, k);
  }

  /** An odd height loses the two lowest one bits above bit 0. */
  lemma OddSkipMeans(q: nat, i: nat, k: nat)
    requires i > 0 && k > 0
    ensures SkipHeight(((2 * q + 1) * Pow2(i) + 1) * Pow2(k) + 1) == 2 * q * Pow2(i + k) + 1
  {
    var n, p := 2 * q + 1, (2 * q + 1) * Pow2(i - 1);
    DoubledPower(n, i);
    SkipOdd(p, k);
    JoinPowers(n, i, k);
    ClearLowestMeans(q, i + k);
  }

  // One with a single one bit above bit 0 loses that.
  lemma OneBitSkipMeans(k: nat)
    requires k > 0
    ensures SkipHeight(Pow2(k) + 1) == 1
  {
    SkipOdd(0, k);
  }

  lemma DoubledPower(n: nat, i: nat)
    requires i > 0
    ensures n * Pow2(i) == 2 * (n * Pow2(i - 1))
  {
  }

  lemma JoinPowers(n: nat, i: nat, k: nat)
    ensures n * Pow2(i) * Pow2(k) == n * Pow2(i + k)
  {
    Pow2Add(i, k);
    Associate(n, Pow2(i), Pow2(k));
  }

  lemma Associate(a: nat, b: nat, c: nat)
    ensures a * b * c == a * (b * c)
  {
  }

  // One above an even number that has bit k as its lowest.
  lemma SkipOdd(p: nat, k: nat)
    requires k > 0
    ensures SkipHeight((2 * p + 1) * Pow2(k) + 1) == ClearLowest(2 * p * Pow2(k)) + 1
  {
    assert (2 * p + 1) * Pow2(k) == 2 * ((2 * p + 1) * Pow2(k - 1));
    MulLe(1, 2 * p + 1, Pow2(k - 1));
    ClearLowestMeans(p, k);
  }

  lemma PopCountDouble(q: nat)
    ensures PopCount(2 * q) == PopCount(q)
    ensures PopCount(2 * q + 1) == PopCount(q) + 1
  {
    assert (2 * q + 1) / 2 == q;
  }

  /** Clearing the lowest one bit: the result is smaller and has one bit less. */
  lemma {:induction false} ClearsOneBit(n: nat)
    requires n > 0
    ensures ClearLowest(n) < n
    ensures PopCount(ClearLowest(n)) == PopCount(n) - 1
  {
    var q := n / 2;
    PopCountDouble(q);
    if n % 2 == 0 {
      assert n == 2 * q;
      ClearsOneBit(q);
      PopCountDouble(ClearLowest(q));
    } else {
      assert n == 2 * q + 1;
    }
  }

  // The height twice cleared.
  function ClearTwo(n: nat): nat { ClearLowest(ClearLowest(n)) }

  lemma ClearsTwoBits(n: nat)
    requires n > 0
    ensures ClearTwo(n) <= ClearLowest(n) < n
    ensures ClearTwo(n) > 0 ==> PopCount(ClearTwo(n)) == PopCount(n) - 2
    ensures PopCount(ClearTwo(n)) < PopCount(n)
  {
    ClearsOneBit(n);
    if ClearLowest(n) > 0 { ClearsOneBit(ClearLowest(n)); }
  }

  // Both cases of the skip height on the half of the height.
  lemma SkipHeightHalves(q: nat)
    requires q > 0
    ensures SkipHeight(2 * q) == 2 * ClearLowest(q)
    ensures SkipHeight(2 * q + 1) == 2 * ClearTwo(q) + 1
  {
    ClearDouble(q);
    ClearDouble(ClearLowest(q));
  }

  /** A skip pointer always leads strictly down. */
  lemma SkipHeightIsLower(height: nat)
    requires height > 0
    ensures SkipHeight(height) < height
  {
    if height >= 2 {
      var q := height / 2;
      SkipHeightHalves(q);
      ClearsTwoBits(q);
      assert height == 2 * q || height == 2 * q + 1;
    }
  }

  // ---------- the walk ----------

  // The test with which GetAncestor prefers the skip pointer to the parent pointer.
  predicate PrefersSkip(walk: nat, target: nat)
    requires target < walk
  {
    var heightSkip := SkipHeight(walk);
    var heightSkipPrev := SkipHeight(walk - 1);
    heightSkip == target ||
    (heightSkip > target && !(heightSkipPrev < heightSkip - 2 && heightSkipPrev >= target))
  }

  // The height after one iteration of GetAncestor's loop, all skip pointers being built.
  function NextHeight(walk: nat, target: nat): (next: nat)
    requires target < walk
    ensures target <= next < walk
  {
    SkipHeightIsLower(walk);
    if PrefersSkip(walk, target) then SkipHeight(walk) else walk - 1
  }

  // The number of iterations of GetAncestor's loop from height walk to height target.
  function Steps(walk: nat, target: nat): nat
    requires target <= walk
    decreases walk
  {
    if walk == target then 0 else 1 + Steps(NextHeight(walk, target), target)
  }

  // At an odd height the parent's skip is never the better one.
  lemma OddPrefersSkip(q: nat, target: nat)
    requires q > 0 && target < 2 * q + 1
    ensures PrefersSkip(2 * q + 1, target) <==> SkipHeight(2 * q + 1) >= target
  {
    SkipHeightHalves(q);
    ClearsTwoBits(q);
  }

  lemma Quarter(q: nat) returns (s: nat, r: nat)
    ensures q == 4 * s + r && r < 4
  {
    s, r := q / 4, q % 4;
  }

  lemma PreviousHasFewBits(q: nat)
    requires q > 0
    requires ClearTwo(q - 1) + 2 <= ClearLowest(q)
    ensures PopCount(q - 1) <= PopCount(q)
  {
    var s, r := Quarter(q);
    if r == 0 {
      MultipleOfFour(s);
    } else {
      FewBitsBeforeOthers(s, r);
    }
  }

  lemma {:induction false} OneMoreBit(t: nat, even: nat, odd: nat)
    requires even == 2 * t && odd == even + 1
    ensures PopCount(even) <= PopCount(odd)
  {
    PopCountDouble(t);
  }

  lemma FewBitsBeforeOthers(s: nat, r: nat)
    requires 1 <= r <= 3
    ensures PopCount(4 * s + r - 1) <= PopCount(4 * s + r)
  {
    if r == 2 {
      TwiceOdd(s);
    } else {
      OneMoreBit(if r == 1 then 2 * s else 2 * s + 1, 4 * s + r - 1, 4 * s + r);
    }
  }

  lemma TwiceOdd(s: nat)
    ensures PopCount(4 * s + 1) == PopCount(4 * s + 2)
  {
    PopCountDouble(2 * s + 1);
    PopCountDouble(2 * s);
    PopCountDouble(s);
    assert 4 * s + 2 == 2 * (2 * s + 1) && 4 * s + 1 == 2 * (2 * s) + 1;
  }

  lemma MultipleOfFour(s: nat)
    requires s > 0
    ensures ClearLowest(4 * s) <= ClearTwo(4 * s - 1)
  {
    ClearTwoOfThree(s - 1);
    ClearDouble(2 * s);
    ClearDouble(s);
    ClearsOneBit(s);
  }

  lemma ClearTwoOfThree(r: nat)
    ensures ClearTwo(4 * r + 3) == 4 * r
  {
    ClearDouble(2 * r + 1);
    ClearDouble(r);
    assert 4 * r + 3 == 2 * (2 * r + 1) + 1;
  }

  // When at an even height the parent's skip is the better one, the parent has few bits more.
  lemma EvenPrefersParent(q: nat, target: nat)
    requires q > 0 && target < 2 * q
    requires SkipHeight(2 * q) > target && !PrefersSkip(2 * q, target)
    ensures q > 1 && PopCount(q - 1) <= PopCount(q)
    ensures SkipHeight(2 * q - 1) >= target
  {
    SkipHeightHalves(q);
    if q > 1 {
      OddSkipHeight(q);
      PreviousHasFewBits(q);
    }
  }

  lemma OddSkipHeight(q: nat)
    requires q > 1
    ensures SkipHeight(2 * q - 1) == 2 * ClearTwo(q - 1) + 1
  {
    SkipHeightHalves(q - 1);
    assert 2 * q - 1 == 2 * (q - 1) + 1;
  }

  // ---------- the bound for the way back to the root ----------

  /** From an odd height the walk to the root clears two bits a step. */
  lemma {:induction false} OddStepsToRoot(q: nat)
    ensures 2 * Steps(2 * q + 1, 0) <= PopCount(q) + 3
    decreases q
  {
    if q == 0 {
      assert NextHeight(1, 0) == 0;
    } else {
      OddPrefersSkip(q, 0);
      SkipHeightHalves(q);
      ClearsTwoBits(q);
      var c := ClearTwo(q);
      assert NextHeight(2 * q + 1, 0) == 2 * c + 1;
      OddStepsToRoot(c);
      if c == 0 {
        assert Steps(1, 0) == 1 by { assert NextHeight(1, 0) == 0; }
      }
    }
  }

  /** Walking back to the root takes at most one iteration more than the height has one bits. */
  lemma StepsToRoot(walk: nat)
    ensures Steps(walk, 0) <= PopCount(walk) + 1
    decreases walk
  {
    if walk > 0 {
      var q := walk / 2;
      PopCountDouble(q);
      if walk % 2 == 1 {
        assert walk == 2 * q + 1;
        OddStepsToRoot(q);
      } else {
        assert walk == 2 * q;
        EvenStepsToRoot(q);
      }
    }
  }

  lemma StepOnce(walk: nat, target: nat, next: nat)
    requires target < walk && next == NextHeight(walk, target)
    ensures Steps(walk, target) == 1 + Steps(next, target)
  {
  }

  lemma EvenStepsToRoot(q: nat)
    requires q > 0
    ensures Steps(2 * q, 0) <= PopCount(q) + 1
    decreases 2 * q, 0
  {
    ClearsOneBit(q);
    SkipHeightHalves(q);
    var c := ClearLowest(q);
    if PrefersSkip(2 * q, 0) {
      PopCountDouble(c);
      StepsToRoot(2 * c);
      StepOnce(2 * q, 0, 2 * c);
    } else {
      ParentStepToRoot(q, c);
    }
  }

  lemma {:induction false} ParentStepToRoot(q: nat, c: nat)
    requires q > 0 && !PrefersSkip(2 * q, 0)
    requires c == ClearLowest(q) && SkipHeight(2 * q) == 2 * c && PopCount(c) == PopCount(q) - 1
    ensures Steps(2 * q, 0) <= PopCount(q) + 1
  {
    EvenPrefersParent(q, 0);
    OddStepsToRoot(q - 1);
    StepOnce(2 * q, 0, 2 * (q - 1) + 1);
    ClearsOneBit(c);
  }

  // ---------- the bound for any target ----------

  // The highest bit in which walk and target differ.
  function TopBit(walk: nat, target: nat): nat
    requires target < walk
  {
    if walk / 2 == target / 2 then 0 else 1 + TopBit(walk / 2, target / 2)
  }

  lemma {:induction false} TopBitBelow(walk: nat, target: nat, bits: nat)
    requires target < walk < Pow2(bits)
    ensures TopBit(walk, target) < bits
  {
    if walk / 2 != target / 2 { TopBitBelow(walk / 2, target / 2, bits - 1); }
  }

  // Going down towards the target never raises the top bit; while it stays, so does all above it.
  lemma {:induction false} TopBitShrinks(next: nat, walk: nat, target: nat)
    requires target < next <= walk
    ensures TopBit(next, target) <= TopBit(walk, target)
    ensures TopBit(next, target) == TopBit(walk, target) ==>
              Shr(next, TopBit(walk, target)) == Shr(walk, TopBit(walk, target))
  {
    if walk / 2 == target / 2 {
      assert next == walk;
    } else if next / 2 != target / 2 {
      TopBitShrinks(next / 2, walk / 2, target / 2);
    }
  }

  lemma {:induction false} TopBitDiffers(walk: nat, target: nat)
    requires target < walk
    ensures Shr(target, TopBit(walk, target)) < Shr(walk, TopBit(walk, target))
  {
    if walk / 2 != target / 2 { TopBitDiffers(walk / 2, target / 2); }
  }

  // Clearing the lowest one bit leaves the bits from k up alone if a lower bit is set.
  lemma {:induction false} ClearKeepsHighBits(n: nat, k: nat)
    requires n > 0 && Shr(n - 1, k) == Shr(n, k)
    ensures Shr(ClearLowest(n), k) == Shr(n, k)
  {
    ClearDouble(n / 2);
    if k == 0 {
    } else if n % 2 == 1 {
      assert n == 2 * (n / 2) + 1;
    } else {
      var q := n / 2;
      assert n == 2 * q && (n - 1) / 2 == q - 1;
      ClearKeepsHighBits(q, k - 1);
    }
  }

  // One bits of walk below the top bit.
  function LowBits(walk: nat, n: nat, top: nat): int {
    PopCount(n) - PopCount(Shr(walk, top))
  }

  // How far the walk still is from leaving its current top bit.
  ghost function Distance(walk: nat, target: nat): int
    requires target < walk
  {
    var top := TopBit(walk, target);
    if walk % 2 == 0 then 2 * LowBits(walk, walk, top) + 1
    else if top == 0 then 1
    else if SkipHeight(walk) >= target then 2 * LowBits(walk, walk - 1, top)
    else 2 * LowBits(walk, walk - 1, top) + 2
  }

  ghost function Potential(walk: nat, target: nat): int
    requires target < walk
  {
    var top := TopBit(walk, target);
    (if top == 0 then 0 else top * top + 1) + Distance(walk, target)
  }

  lemma ShrOfPrevious(walk: nat, k: nat)
    requires walk % 2 == 1 && k > 0
    ensures Shr(walk - 1, k) == Shr(walk, k)
  {
    assert (walk - 1) / 2 == walk / 2;
  }

  lemma DistanceRange(walk: nat, target: nat)
    requires target < walk
    ensures 0 <= Distance(walk, target)
    ensures TopBit(walk, target) > 0 ==> Distance(walk, target) <= 2 * TopBit(walk, target)
    ensures TopBit(walk, target) == 0 ==> Distance(walk, target) == 1
  {
    var top := TopBit(walk, target);
    PopCountLow(walk, top);
    if walk % 2 == 1 && top > 0 {
      ShrOfPrevious(walk, top);
      PopCountLow(walk - 1, top);
    }
  }

  lemma Square(a: nat, b: nat)
    requires a < b
    ensures a * a + 2 * a + 1 <= b * b
  {
    var d := b - a - 1;
    assert b * b == (a + 1 + d) * (a + 1 + d) == (a + 1) * (a + 1) + 2 * d * (a + 1) + d * d;
  }

  lemma LowerTopBitWins(k: nat, distance: int, top: nat, walkDistance: nat)
    requires k < top
    requires if k == 0 then distance == 1 else distance <= 2 * k
    ensures (if k == 0 then 0 else k * k + 1) + distance < top * top + 1 + walkDistance
  {
    Square(k, top);
  }

  // A step that leaves the top bit gains more than the distance can hold.
  lemma LeavingTopBit(next: nat, walk: nat, target: nat)
    requires target < next < walk
    requires TopBit(next, target) < TopBit(walk, target)
    ensures Potential(next, target) < Potential(walk, target)
  {
    DistanceRange(next, target);
    DistanceRange(walk, target);
    LowerTopBitWins(TopBit(next, target), Distance(next, target), TopBit(walk, target), Distance(walk, target));
  }

  // A step within the top bit reduces the distance, from an even and from an odd height.
  lemma WithinTopBitEven(q: nat, target: nat)
    requires target < 2 * q && target < NextHeight(2 * q, target)
    requires TopBit(NextHeight(2 * q, target), target) == TopBit(2 * q, target) > 0
    ensures Distance(NextHeight(2 * q, target), target) < Distance(2 * q, target)
  {
    SkipHeightHalves(q);
    if PrefersSkip(2 * q, target) {
      EvenSkips(q, target, ClearLowest(q));
    } else {
      EvenSkipStaysAbove(q, target);
      EvenPrefersParent(q, target);
      EvenSteps(q - 1, target);
    }
  }

  // A skip from an even height that keeps the top bit.
  lemma EvenSkips(q: nat, target: nat, c: nat)
    requires q > 0 && c == ClearLowest(q) && target < 2 * c && target < 2 * q
    requires TopBit(2 * c, target) == TopBit(2 * q, target)
    ensures Distance(2 * c, target) < Distance(2 * q, target)
  {
    ClearsOneBit(q);
    TopBitShrinks(2 * c, 2 * q, target);
    PopCountDouble(q);
    PopCountDouble(c);
    EvenDistance(c, target, TopBit(2 * q, target));
    EvenDistance(q, target, TopBit(2 * q, target));
  }

  // A step to the parent from an even height that keeps the top bit.
  lemma EvenSteps(p: nat, target: nat)
    requires target < 2 * p + 1 && SkipHeight(2 * p + 1) >= target && PopCount(p) <= PopCount(p + 1)
    requires TopBit(2 * p + 1, target) == TopBit(2 * (p + 1), target) > 0
    ensures Distance(2 * p + 1, target) < Distance(2 * (p + 1), target)
  {
    var top := TopBit(2 * (p + 1), target);
    TopBitShrinks(2 * p + 1, 2 * (p + 1), target);
    PopCountDouble(p + 1);
    PopCountDouble(p);
    OddDistance(p, target, top);
    EvenDistance(p + 1, target, top);
    assert Shr(2 * p + 1, top) == Shr(2 * (p + 1), top);
  }

  lemma EvenDistance(q: nat, target: nat, top: nat)
    requires target < 2 * q && top == TopBit(2 * q, target)
    ensures Distance(2 * q, target) == 2 * (PopCount(2 * q) - PopCount(Shr(2 * q, top))) + 1
  {
  }

  lemma OddDistance(q: nat, target: nat, top: nat)
    requires target < 2 * q + 1 && top == TopBit(2 * q + 1, target) > 0
    ensures Distance(2 * q + 1, target) ==
            2 * (PopCount(2 * q) - PopCount(Shr(2 * q + 1, top))) + if SkipHeight(2 * q + 1) >= target then 0 else 2
  {
    var walk := 2 * q + 1;
    assert walk % 2 == 1 && LowBits(walk, walk - 1, top) == PopCount(2 * q) - PopCount(Shr(walk, top));
  }

  // If the parent of an even height keeps the top bit, so does the skip.
  lemma EvenSkipStaysAbove(q: nat, target: nat)
    requires target < 2 * q - 1
    requires TopBit(2 * q - 1, target) == TopBit(2 * q, target)
    ensures SkipHeight(2 * q) > target
  {
    var walk, top := 2 * q, TopBit(2 * q, target);
    SkipHeightHalves(q);
    ClearDouble(q);
    TopBitShrinks(walk - 1, walk, target);
    TopBitDiffers(walk, target);
    ClearKeepsHighBits(walk, top);
    if SkipHeight(walk) <= target { ShrMonotone(SkipHeight(walk), target, top); }
  }

  lemma WithinTopBitOdd(q: nat, target: nat)
    requires q > 0
    requires target < 2 * q + 1 && target < NextHeight(2 * q + 1, target)
    requires TopBit(NextHeight(2 * q + 1, target), target) == TopBit(2 * q + 1, target) > 0
    ensures Distance(NextHeight(2 * q + 1, target), target) < Distance(2 * q + 1, target)
  {
    var walk := 2 * q + 1;
    var next, top := NextHeight(walk, target), TopBit(walk, target);
    TopBitShrinks(next, walk, target);
    OddPrefersSkip(q, target);
    SkipHeightHalves(q);
    PopCountDouble(q);
    OddDistance(q, target, top);
    if PrefersSkip(walk, target) {
      ClearsTwoBits(q);
      OddSkips(q, target, ClearTwo(q));
    } else {
      EvenDistance(q, target, top);
    }
  }

  // A skip from an odd height that keeps the top bit.
  lemma OddSkips(q: nat, target: nat, c: nat)
    requires q >= c == ClearTwo(q) && q > 0 && target < 2 * c + 1 == SkipHeight(2 * q + 1)
    requires TopBit(2 * c + 1, target) == TopBit(2 * q + 1, target) > 0
    ensures Distance(2 * c + 1, target) < Distance(2 * q + 1, target)
  {
    var top := TopBit(2 * q + 1, target);
    ClearsTwoBits(q);
    TopBitShrinks(2 * c + 1, 2 * q + 1, target);
    assert c > 0;
    PopCountDouble(q);
    PopCountDouble(c);
    OddDistance(q, target, top);
    OddDistance(c, target, top);
  }

  lemma WithinTopBit(walk: nat, target: nat)
    requires target < walk && target < NextHeight(walk, target)
    requires TopBit(NextHeight(walk, target), target) == TopBit(walk, target) > 0
    ensures Distance(NextHeight(walk, target), target) < Distance(walk, target)
  {
    var q := walk / 2;
    if walk % 2 == 0 {
      assert walk == 2 * q;
      WithinTopBitEven(q, target);
    } else {
      assert walk == 2 * q + 1;
      WithinTopBitOdd(q, target);
    }
  }

  lemma StepReducesPotential(walk: nat, target: nat)
    requires target < walk && target < NextHeight(walk, target)
    ensures Potential(NextHeight(walk, target), target) < Potential(walk, target)
  {
    var next := NextHeight(walk, target);
    TopBitShrinks(next, walk, target);
    if TopBit(next, target) < TopBit(walk, target) {
      LeavingTopBit(next, walk, target);
    } else {
      assert TopBit(walk, target) > 0;
      WithinTopBit(walk, target);
    }
  }

  lemma {:induction false} StepsBelowPotential(walk: nat, target: nat)
    requires target < walk
    ensures Steps(walk, target) <= Potential(walk, target)
    decreases walk
  {
    var next := NextHeight(walk, target);
    DistanceRange(walk, target);
    if next > target {
      StepReducesPotential(walk, target);
      StepsBelowPotential(next, target);
    }
  }

  /** Between any two heights below 2^bits the walk takes at most bits * bits iterations. */
  lemma StepsAreFew(walk: nat, target: nat, bits: nat)
    requires target <= walk < Pow2(bits)
    ensures Steps(walk, target) <= bits * bits
  {
    if target < walk {
      StepsBelowPotential(walk, target);
      DistanceRange(walk, target);
      TopBitBelow(walk, target, bits);
      Square(TopBit(walk, target), bits);
    }
  }
}

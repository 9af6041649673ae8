/** The Merkle root of a list of hashes: the in-place loop against the tree it stands for. */
module Merkle {
  import opened Bits
  import opened Bytes
  import opened HexText

  // The two hashes of a pair, each reversed and in hexadecimal, one after the other.
  function PairText(a: Hash256, b: Hash256): string {
    Hex(Reversed(a), false) + Hex(Reversed(b), false)
  }

  function Reversed(bs: seq<byte>): (r: seq<byte>)
    ensures |r| == |bs| && forall i :: 0 <= i < |bs| ==> r[i] == bs[|bs| - 1 - i]
  {
    if bs == [] then [] else Reversed(bs[1..]) + [bs[0]]
  }

  lemma ReversedInjective(a: seq<byte>, b: seq<byte>)
    requires Reversed(a) == Reversed(b)
    ensures a == b
  {
    assert |a| == |b|;
    forall i | 0 <= i < |a|
      ensures a[i] == b[i]
    {
      assert Reversed(a)[|a| - 1 - i] == a[i] && Reversed(b)[|a| - 1 - i] == b[i];
    }
  }

  lemma PairTextDigits(a: Hash256, b: Hash256, i: nat)
    requires i < 64
    ensures |PairText(a, b)| == 128
    ensures PairText(a, b)[2 * i..2 * i + 2] == Digits(if i < 32 then a[31 - i] else b[63 - i])
  {
    var left, right := Hex(Reversed(a), false), Hex(Reversed(b), false);
    HexLength(Reversed(a), false);
    HexLength(Reversed(b), false);
    Halves(left, right, if i < 32 then 2 * i else 2 * i - 64);
    if i < 32 {
      HexAt(Reversed(a), false, i);
    } else {
      HexAt(Reversed(b), false, i - 32);
      assert Reversed(b)[i - 32] == b[63 - i];
    }
  }

  lemma Halves(left: string, right: string, at: nat)
    requires |left| == |right| == 64 && at + 2 <= 64
    ensures (left + right)[at..at + 2] == left[at..at + 2]
    ensures (left + right)[64 + at..64 + at + 2] == right[at..at + 2]
  {
  }

  /** The text of a pair by position: the bytes of the first hash from the last to the first, then those of the second,
      two digits each, '0' to '9' and 'a' to 'f' by their character codes. */
  lemma PairTextAt(a: Hash256, b: Hash256, i: nat)
    requires i < 64
    ensures var s, x := PairText(a, b), if i < 32 then a[31 - i] else b[63 - i];
            && |s| == 128
            && s[2 * i] as int == (if x / 16 < 10 then 48 else 87) + x / 16
            && s[2 * i + 1] as int == (if x % 16 < 10 then 48 else 87) + x % 16
  {
    PairTextDigits(a, b, i);
    DigitCodes(if i < 32 then a[31 - i] else b[63 - i]);
  }

  // A text of these hashes, each from its last byte to its first, two digits a byte.
  ghost predicate Spells(s: string, a: Hash256, b: Hash256) {
    |s| == 128 && forall i :: 0 <= i < 64 ==> s[2 * i..2 * i + 2] == Digits(if i < 32 then a[31 - i] else b[63 - i])
  }

  lemma PairTextSpells(a: Hash256, b: Hash256)
    ensures Spells(PairText(a, b), a, b)
  {
    forall i | 0 <= i < 64
      ensures |PairText(a, b)| == 128
      ensures PairText(a, b)[2 * i..2 * i + 2] == Digits(if i < 32 then a[31 - i] else b[63 - i])
    {
      PairTextDigits(a, b, i);
    }
    PairTextDigits(a, b, 0);
  }

  lemma PairTextInjective(a: Hash256, b: Hash256, c: Hash256, d: Hash256)
    requires PairText(a, b) == PairText(c, d)
    ensures a == c && b == d
  {
    HexLength(Reversed(a), false);
    HexLength(Reversed(c), false);
    assert Hex(Reversed(a), false) == PairText(a, b)[..64] && Hex(Reversed(c), false) == PairText(c, d)[..64];
    assert Hex(Reversed(b), false) == PairText(a, b)[64..] && Hex(Reversed(d), false) == PairText(c, d)[64..];
    HexInjective(Reversed(a), Reversed(c), false);
    HexInjective(Reversed(b), Reversed(d), false);
    ReversedInjective(a, c);
    ReversedInjective(b, d);
  }

  // What a pair of hashes is combined to.
  function Combine(sha: string -> Hash256): (Hash256, Hash256) -> Hash256 {
    (a: Hash256, b: Hash256) => sha(PairText(a, b))
  }

  // ---------- the tree, for any way of combining two nodes ----------

  /** The node over a list of at most 2^depth leaves: its left part is full before its right part begins, and a missing
      right part is the left part again. */
  function Node<T>(pair: (T, T) -> T, depth: nat, xs: seq<T>): T
    requires 0 < |xs| <= Pow2(depth)
  {
    if depth == 0 then xs[0]
    else
      var half := Pow2(depth - 1);
      if |xs| <= half then
        var left := Node(pair, depth - 1, xs);
        pair(left, left)
      else pair(Node(pair, depth - 1, xs[..half]), Node(pair, depth - 1, xs[half..]))
  }

  // The levels above n leaves.
  function Depth(n: nat): (d: nat)
    requires n > 0
    ensures n <= Pow2(d) && (d > 0 ==> Pow2(d - 1) < n)
  {
    if n == 1 then 0 else 1 + Depth((n + 1) / 2)
  }

  function Root<T>(pair: (T, T) -> T, xs: seq<T>): T
    requires xs != []
  {
    Node(pair, Depth(|xs|), xs)
  }

  // ---------- one level ----------

  // Each pair combined, a last odd one with itself.
  function LevelUp<T>(pair: (T, T) -> T, xs: seq<T>): (up: seq<T>)
    ensures |up| == (|xs| + 1) / 2
  {
    if xs == [] then []
    else if |xs| == 1 then [pair(xs[0], xs[0])]
    else [pair(xs[0], xs[1])] + LevelUp(pair, xs[2..])
  }

  lemma Associates<T>(a: seq<T>, b: seq<T>, c: seq<T>)
    ensures a + (b + c) == a + b + c
  {
  }

  lemma {:induction false} LevelUpAppend<T>(pair: (T, T) -> T, xs: seq<T>, ys: seq<T>)
    requires |xs| % 2 == 0
    ensures LevelUp(pair, xs + ys) == LevelUp(pair, xs) + LevelUp(pair, ys)
  {
    if xs == [] {
      assert xs + ys == ys;
    } else {
      LevelUpAppend(pair, xs[2..], ys);
      assert (xs + ys)[2..] == xs[2..] + ys;
      Associates([pair(xs[0], xs[1])], LevelUp(pair, xs[2..]), LevelUp(pair, ys));
    }
  }

  /** Repeating the last of an odd number of nodes does not change the level above. */
  lemma {:induction false} LevelUpPadded<T>(pair: (T, T) -> T, xs: seq<T>)
    requires |xs| % 2 == 1
    ensures LevelUp(pair, xs + [xs[|xs| - 1]]) == LevelUp(pair, xs)
  {
    if |xs| == 1 {
      assert (xs + [xs[0]])[2..] == [];
    } else {
      LevelUpPadded(pair, xs[2..]);
      assert (xs + [xs[|xs| - 1]])[2..] == xs[2..] + [xs[2..][|xs| - 3]];
    }
  }

  lemma NodeOfTwo<T>(pair: (T, T) -> T, xs: seq<T>)
    requires 0 < |xs| <= 2
    ensures Pow2(1) == 2 && Node(pair, 1, xs) == LevelUp(pair, xs)[0]
  {
    assert Pow2(0) == 1;
    if |xs| == 2 {
      assert Node(pair, 0, xs[..1]) == xs[0] && Node(pair, 0, xs[1..]) == xs[1];
    }
  }

  // The level above a list whose first part is a whole number of pairs.
  lemma {:induction false} LevelOfParts<T>(pair: (T, T) -> T, xs: seq<T>, half: nat)
    requires half % 2 == 0 && half <= |xs|
    ensures LevelUp(pair, xs)[..half / 2] == LevelUp(pair, xs[..half])
    ensures LevelUp(pair, xs)[half / 2..] == LevelUp(pair, xs[half..])
  {
    LevelUpAppend(pair, xs[..half], xs[half..]);
    assert xs == xs[..half] + xs[half..];
  }

  lemma NodeOfOnePart<T>(pair: (T, T) -> T, depth: nat, xs: seq<T>, half: nat)
    requires depth > 1 && 0 < |xs| <= half == Pow2(depth - 1)
    requires Node(pair, depth - 1, xs) == Node(pair, depth - 2, LevelUp(pair, xs))
    ensures Node(pair, depth, xs) == Node(pair, depth - 1, LevelUp(pair, xs))
  {
    assert half / 2 == Pow2(depth - 2);
  }

  lemma NodeOfParts<T>(pair: (T, T) -> T, depth: nat, xs: seq<T>, half: nat)
    requires depth > 1 && half == Pow2(depth - 1) < |xs| <= Pow2(depth)
    requires Node(pair, depth - 1, xs[..half]) == Node(pair, depth - 2, LevelUp(pair, xs[..half]))
    requires Node(pair, depth - 1, xs[half..]) == Node(pair, depth - 2, LevelUp(pair, xs[half..]))
    ensures Node(pair, depth, xs) == Node(pair, depth - 1, LevelUp(pair, xs))
  {
    LevelOfParts(pair, xs, half);
    assert half / 2 == Pow2(depth - 2);
  }

  /** A tree over a list is the tree, one level lower, over the level above the list. */
  lemma {:induction false} NodeOfLevel<T>(pair: (T, T) -> T, depth: nat, xs: seq<T>)
    requires depth > 0 && 0 < |xs| <= Pow2(depth)
    ensures Node(pair, depth, xs) == Node(pair, depth - 1, LevelUp(pair, xs))
  {
    var half := Pow2(depth - 1);
    if depth == 1 {
      NodeOfTwo(pair, xs);
    } else if |xs| <= half {
      NodeOfLevel(pair, depth - 1, xs);
      NodeOfOnePart(pair, depth, xs, half);
    } else {
      NodeOfLevel(pair, depth - 1, xs[..half]);
      NodeOfLevel(pair, depth - 1, xs[half..]);
      NodeOfParts(pair, depth, xs, half);
    }
  }

  lemma RootOfLevel<T>(pair: (T, T) -> T, xs: seq<T>)
    requires |xs| > 1
    ensures Root(pair, xs) == Root(pair, LevelUp(pair, xs))
  {
    NodeOfLevel(pair, Depth(|xs|), xs);
  }

  lemma RootOfTwo<T>(pair: (T, T) -> T, xs: seq<T>)
    requires |xs| == 2
    ensures Root(pair, xs) == pair(xs[0], xs[1])
  {
    RootOfLevel(pair, xs);
    assert xs[2..] == [];
    assert LevelUp(pair, xs) == [pair(xs[0], xs[1])];
  }

  // ---------- the loop ----------

  method HashPair(a: Hash256, b: Hash256, sha: string -> Hash256) returns (h: Hash256)
    ensures h == Combine(sha)(a, b)
    ensures exists s: string {:trigger sha(s)} :: Spells(s, a, b) && h == sha(s)
  {
    PairTextSpells(a, b);
    var left := EncodeHex(Reversed(a), false);
    var right := EncodeHex(Reversed(b), false);
    h := sha(left + right);
    assert Combine(sha)(a, b) == sha(PairText(a, b));
  }

  lemma OnePair<T>(pair: (T, T) -> T, xs: seq<T>, k: nat)
    requires k % 2 == 0 && k + 2 <= |xs|
    ensures LevelUp(pair, xs[..k + 2]) == LevelUp(pair, xs[..k]) + [pair(xs[k], xs[k + 1])]
  {
    LevelUpAppend(pair, xs[..k], xs[k..k + 2]);
    assert xs[..k] + xs[k..k + 2] == xs[..k + 2] && xs[k..k + 2][2..] == [];
  }

  // One level, from one vector into the other.
  method NextLevel(level: seq<Hash256>, sha: string -> Hash256) returns (swap: seq<Hash256>)
    ensures swap == LevelUp(Combine(sha), level)
  {
    var leaves := level;
    if |leaves| % 2 != 0 {
      LevelUpPadded(Combine(sha), leaves);
      leaves := leaves + [leaves[|leaves| - 1]];
    }
    swap := [];
    var it := 0;
    while it < |leaves|
      invariant 0 <= it <= |leaves| && it % 2 == 0
      invariant swap == LevelUp(Combine(sha), leaves[..it])
    {
      var h := HashPair(leaves[it], leaves[it + 1], sha);
      OnePair(Combine(sha), leaves, it);
      swap := swap + [h];
      it := it + 2;
    }
    assert leaves[..it] == leaves;
  }

  function Leaves<T>(transactions: seq<T>, hashOf: T -> Hash256): seq<Hash256> {
    seq(|transactions|, i requires 0 <= i < |transactions| => hashOf(transactions[i]))
  }

  /** The root is computed level by level in two vectors that change places. */
  method ComputeMerkleRoot<T>(transactions: seq<T>, hashOf: T -> Hash256, sha: string -> Hash256) returns (root: Hash256)
    requires transactions != []
    ensures root == Root(Combine(sha), Leaves(transactions, hashOf))
    ensures |transactions| == 1 ==> root == hashOf(transactions[0])
    ensures |transactions| == 2 ==>
              exists s: string {:trigger sha(s)} ::
                Spells(s, hashOf(transactions[0]), hashOf(transactions[1])) && root == sha(s)
  {
    ghost var hashes := Leaves(transactions, hashOf);
    var leaves: seq<Hash256> := [];
    for k := 0 to |transactions|
      invariant leaves == hashes[..k]
    {
      leaves := leaves + [hashOf(transactions[k])];
    }
    assert leaves == hashes;
    while |leaves| > 1
      invariant leaves != [] && Root(Combine(sha), leaves) == Root(Combine(sha), hashes)
      decreases |leaves|
    {
      RootOfLevel(Combine(sha), leaves);
      leaves := NextLevel(leaves, sha);
    }
    root := leaves[0];
    if |transactions| == 2 {
      RootOfTwo(Combine(sha), hashes);
      PairTextSpells(hashes[0], hashes[1]);
    }
  }

  // ---------- what the root says about the leaves ----------

  /** Two pairs that are combined to the same node. */
  datatype Collision<T> = None | Collision(a: T, b: T, c: T, d: T)

  predicate IsCollision<T(==)>(pair: (T, T) -> T, x: Collision<T>) {
    x.Collision? && (x.a, x.b) != (x.c, x.d) && pair(x.a, x.b) == pair(x.c, x.d)
  }

  lemma {:induction false} NodeBinds<T>(pair: (T, T) -> T, depth: nat, xs: seq<T>, ys: seq<T>) returns (x: Collision<T>)
    requires 0 < |xs| == |ys| <= Pow2(depth) && Node(pair, depth, xs) == Node(pair, depth, ys)
    ensures xs == ys || IsCollision(pair, x)
  {
    var half := if depth == 0 then 1 else Pow2(depth - 1);
    x := None;
    if depth == 0 {
      assert xs == [xs[0]] && ys == [ys[0]];
    } else if |xs| <= half {
      var a, c := Node(pair, depth - 1, xs), Node(pair, depth - 1, ys);
      if a == c {
        x := NodeBinds(pair, depth - 1, xs, ys);
      } else {
        x := Collision(a, a, c, c);
      }
    } else {
      var a, c := Node(pair, depth - 1, xs[..half]), Node(pair, depth - 1, ys[..half]);
      var b, d := Node(pair, depth - 1, xs[half..]), Node(pair, depth - 1, ys[half..]);
      if a != c || b != d {
        x := Collision(a, b, c, d);
      } else if xs[..half] != ys[..half] {
        x := NodeBinds(pair, depth - 1, xs[..half], ys[..half]);
      } else {
        x := NodeBinds(pair, depth - 1, xs[half..], ys[half..]);
        assert xs == xs[..half] + xs[half..] && ys == ys[..half] + ys[half..];
      }
    }
  }

  /** Two lists of the same length with the same root are the same, or they exhibit two texts with the same hash. */
  lemma RootBinds(sha: string -> Hash256, xs: seq<Hash256>, ys: seq<Hash256>)
    returns (s: string, t: string)
    requires |xs| == |ys| > 0 && Root(Combine(sha), xs) == Root(Combine(sha), ys)
    ensures xs == ys || (s != t && sha(s) == sha(t))
  {
    s, t := "", "";
    var x := NodeBinds(Combine(sha), Depth(|xs|), xs, ys);
    if xs != ys {
      s, t := PairText(x.a, x.b), PairText(x.c, x.d);
      if s == t { PairTextInjective(x.a, x.b, x.c, x.d); }
    }
  }

  // ---------- exactly when two roots agree ----------

  /** The leaves of the full tree of a depth: the left part again wherever the right part is missing. */
  function Completed<T>(depth: nat, xs: seq<T>): (full: seq<T>)
    requires 0 < |xs| <= Pow2(depth)
    ensures |full| == Pow2(depth)
  {
    if depth == 0 then xs
    else
      var half := Pow2(depth - 1);
      if |xs| <= half then Completed(depth - 1, xs) + Completed(depth - 1, xs)
      else Completed(depth - 1, xs[..half]) + Completed(depth - 1, xs[half..])
  }

  lemma NodeOfFull<T>(pair: (T, T) -> T, depth: nat, left: seq<T>, right: seq<T>)
    requires |left| == |right| == Pow2(depth)
    ensures Node(pair, depth + 1, left + right) == pair(Node(pair, depth, left), Node(pair, depth, right))
  {
    assert (left + right)[..Pow2(depth)] == left && (left + right)[Pow2(depth)..] == right;
  }

  lemma {:induction false} NodeOfCompleted<T>(pair: (T, T) -> T, depth: nat, xs: seq<T>)
    requires 0 < |xs| <= Pow2(depth)
    ensures Node(pair, depth, Completed(depth, xs)) == Node(pair, depth, xs)
  {
    if depth > 0 {
      var half := Pow2(depth - 1);
      if |xs| <= half {
        NodeOfCompleted(pair, depth - 1, xs);
        NodeOfFull(pair, depth - 1, Completed(depth - 1, xs), Completed(depth - 1, xs));
      } else {
        NodeOfCompleted(pair, depth - 1, xs[..half]);
        NodeOfCompleted(pair, depth - 1, xs[half..]);
        NodeOfFull(pair, depth - 1, Completed(depth - 1, xs[..half]), Completed(depth - 1, xs[half..]));
      }
    }
  }

  // The level that lies a number of levels above a list.
  function LevelsUp<T>(pair: (T, T) -> T, xs: seq<T>, levels: nat): (up: seq<T>)
    requires xs != []
    ensures up != []
    decreases levels
  {
    if levels == 0 then xs else LevelsUp(pair, LevelUp(pair, xs), levels - 1)
  }

  lemma {:induction false} NodeOfLevels<T>(pair: (T, T) -> T, depth: nat, levels: nat, xs: seq<T>)
    requires 0 < |xs| <= Pow2(depth + levels)
    ensures |LevelsUp(pair, xs, levels)| <= Pow2(depth)
    ensures Node(pair, depth + levels, xs) == Node(pair, depth, LevelsUp(pair, xs, levels))
    decreases levels
  {
    if levels > 0 {
      NodeOfLevel(pair, depth + levels, xs);
      NodeOfLevels(pair, depth, levels - 1, LevelUp(pair, xs));
    }
  }

  // At one depth the nodes over two lists agree exactly when their completed lists do, or there is a collision.
  lemma {:induction false} NodesAgreeAt<T>(pair: (T, T) -> T, d: nat, xs: seq<T>, ys: seq<T>) returns (x: Collision<T>)
    requires 0 < |xs| <= Pow2(d) && 0 < |ys| <= Pow2(d)
    ensures IsCollision(pair, x) || (Node(pair, d, xs) == Node(pair, d, ys) <==> Completed(d, xs) == Completed(d, ys))
  {
    NodeOfCompleted(pair, d, xs);
    NodeOfCompleted(pair, d, ys);
    x := None;
    if Node(pair, d, xs) == Node(pair, d, ys) {
      x := NodeBinds(pair, d, Completed(d, xs), Completed(d, ys));
    }
  }

  /** Lists of any lengths have the same root exactly when, at the depth of the flatter one, the completed level of the
      deeper one is the completed list of the flatter one; or there is a collision. */
  lemma NodesAgree<T>(pair: (T, T) -> T, xs: seq<T>, ys: seq<T>) returns (x: Collision<T>)
    requires xs != [] && ys != [] && Depth(|ys|) <= Depth(|xs|)
    ensures var d := Depth(|ys|);
            var up := LevelsUp(pair, xs, Depth(|xs|) - d);
            |up| <= Pow2(d) &&
            (IsCollision(pair, x) || (Root(pair, xs) == Root(pair, ys) <==> Completed(d, up) == Completed(d, ys)))
  {
    var d, levels := Depth(|ys|), Depth(|xs|) - Depth(|ys|);
    NodeOfLevels(pair, d, levels, xs);
    x := NodesAgreeAt(pair, d, LevelsUp(pair, xs, levels), ys);
  }

  /** Two lists have the same root exactly when the higher tree, cut at the depth of the lower one, has its completed
      leaves; or they exhibit two texts with the same hash. For lists of one depth nothing is cut: the roots agree
      exactly when the completed lists do. */
  lemma RootsAgree(sha: string -> Hash256, xs: seq<Hash256>, ys: seq<Hash256>)
    returns (s: string, t: string)
    requires xs != [] && ys != [] && Depth(|ys|) <= Depth(|xs|)
    ensures var d := Depth(|ys|);
            var up := LevelsUp(Combine(sha), xs, Depth(|xs|) - d);
            |up| <= Pow2(d) &&
            ((s != t && sha(s) == sha(t)) ||
             (Root(Combine(sha), xs) == Root(Combine(sha), ys) <==> Completed(d, up) == Completed(d, ys)))
  {
    s, t := "", "";
    var x := NodesAgree(Combine(sha), xs, ys);
    if IsCollision(Combine(sha), x) {
      s, t := PairText(x.a, x.b), PairText(x.c, x.d);
      if s == t { PairTextInjective(x.a, x.b, x.c, x.d); }
    }
  }

  /** At different depths: an inner node passed off as a leaf has the root of the two leaves below it. */
  lemma InnerNodeAsLeaf<T>(pair: (T, T) -> T, a: T, b: T)
    ensures Depth(1) < Depth(2) && Root(pair, [pair(a, b)]) == Root(pair, [a, b])
  {
    RootOfTwo(pair, [a, b]);
  }

  /** At one depth: an odd list of at least three has the root of the list with its last one repeated. */
  lemma LengthMatters<T>(pair: (T, T) -> T, xs: seq<T>)
    requires |xs| % 2 == 1 && |xs| > 1
    ensures Root(pair, xs + [xs[|xs| - 1]]) == Root(pair, xs)
  {
    LevelUpPadded(pair, xs);
    RootOfLevel(pair, xs);
    RootOfLevel(pair, xs + [xs[|xs| - 1]]);
  }
}

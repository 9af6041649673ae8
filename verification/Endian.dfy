/** Little-endian integers. */
module Endian {
  import opened Bits
  import opened Bytes

  // The k low bytes of n, lowest first.
  function LittleEndian(n: nat, k: nat): (bs: seq<byte>)
    ensures |bs| == k
  {
    if k == 0 then [] else [n % 256] + LittleEndian(n / 256, k - 1)
  }

  function Value(bs: seq<byte>): nat {
    if bs == [] then 0 else bs[0] + 256 * Value(bs[1..])
  }

  /** Byte i of the text is digit i of the number to the base 256. */
  lemma {:induction false} ByteAt(n: nat, k: nat, i: nat)
    requires i < k
    ensures LittleEndian(n, k)[i] == n / Pow256(i) % 256
  {
    if i > 0 {
      ByteAt(n / 256, k - 1, i - 1);
      DivDiv(n, 256, Pow256(i - 1));
    }
  }

  lemma {:induction false} ValueBelow(bs: seq<byte>)
    ensures Value(bs) < Pow256(|bs|)
  {
    if bs != [] { ValueBelow(bs[1..]); }
  }

  /** Reading the bytes of a number that fits gives the number back. */
  lemma {:induction false} ValueOfBytes(n: nat, k: nat)
    requires n < Pow256(k)
    ensures Value(LittleEndian(n, k)) == n
  {
    if k > 0 {
      ValueOfBytes(n / 256, k - 1);
      assert LittleEndian(n, k)[1..] == LittleEndian(n / 256, k - 1);
    }
  }

  /** Writing the number read from some bytes gives the bytes back. */
  lemma {:induction false} BytesOfValue(bs: seq<byte>)
    ensures LittleEndian(Value(bs), |bs|) == bs
  {
    if bs != [] {
      var n := Value(bs);
      assert n % 256 == bs[0] && n / 256 == Value(bs[1..]);
      BytesOfValue(bs[1..]);
    }
  }

  lemma {:induction false} ValueAppend(bs: seq<byte>, b: byte)
    ensures Value(bs + [b]) == Value(bs) + b * Pow256(|bs|)
  {
    if bs == [] {
      assert ([b])[1..] == [];
    } else {
      ValueAppend(bs[1..], b);
      assert (bs + [b])[1..] == bs[1..] + [b];
      assert 256 * (b * Pow256(|bs| - 1)) == b * Pow256(|bs|);
    }
  }

  lemma {:induction false} LittleEndianAppend(n: nat, k: nat)
    ensures LittleEndian(n, k + 1) == LittleEndian(n, k) + [Shr(n, 8 * k) % 256]
  {
    if k > 0 {
      LittleEndianAppend(n / 256, k - 1);
      ShrBytes(n, k);
    }
  }

  lemma ShrBytes(n: nat, k: nat)
    requires k > 0
    ensures Shr(n, 8 * k) == Shr(n / 256, 8 * (k - 1))
  {
    ShrIsDiv(n, 8 * k);
    ShrIsDiv(n / 256, 8 * (k - 1));
    Pow2Values();
    Pow2Add(8, 8 * (k - 1));
    DivDiv(n, 256, Pow2(8 * (k - 1)));
  }

  // Fills a buffer from the low end, shifting the number down.
  method ToLittleEndian(n: nat, out: array<byte>)
    modifies out
    ensures out[..] == LittleEndian(n, out.Length)
  {
    var rest := n;
    var low := 0;
    while low < out.Length
      invariant 0 <= low <= out.Length
      invariant out[..low] == LittleEndian(n, low) && rest == Shr(n, 8 * low)
    {
      out[low] := rest % 256;
      LittleEndianAppend(n, low);
      ShrAdd(n, 8 * low, 8);
      rest := Shr(rest, 8);
      low := low + 1;
      assert out[..low] == out[..low - 1] + [out[low - 1]];
    }
    assert out[..] == out[..low];
  }

  lemma {:induction false} ShrAdd(n: nat, a: nat, b: nat)
    ensures Shr(Shr(n, a), b) == Shr(n, a + b)
  {
    if a > 0 { ShrAdd(n / 2, a - 1, b); }
  }

  // Collects the bytes with shifts and ors.
  method FromLittleEndian(low: seq<byte>) returns (out: nat)
    ensures out == Value(low)
  {
    out := 0;
    var i := 0;
    while i < |low|
      invariant 0 <= i <= |low| && out == Value(low[..i])
    {
      ValueBelow(low[..i]);
      ValueAppend(low[..i], low[i]);
      assert low[..i + 1] == low[..i] + [low[i]];
      Pow256IsPow2(i);
      OrDisjoint(out, low[i], 8 * i);
      ShlIsMul(low[i], 8 * i);
      out := Or(out, Shl(low[i], 8 * i));
      i := i + 1;
    }
    assert low[..i] == low;
  }
}

/** Subnets: netmasks made from prefix lengths, matching, and the prefix length read back from a netmask. */
module SubNets {
  import opened Bits
  import opened Bytes

  const IPV4_PREFIX: seq<byte> := [0, 0, 0, 0, 0, 0, 0, 0, 0, 0, 0xff, 0xff]
  const ONION_PREFIX: seq<byte> := [0xFD, 0x87, 0xD8, 0x7E, 0xEB, 0x43]
  const INTERNAL_PREFIX: seq<byte> := [0xFD, 0x6B, 0x88, 0xC0, 0x87, 0x24]

  // ---------- addresses ----------

  // The IPv4-mapped addresses of section 2.5.5.2 of RFC 4291.
  predicate IsIpv4(ip: IpAddr) { ip[..12] == IPV4_PREFIX }

  predicate IsInternal(ip: IpAddr) { ip[..6] == INTERNAL_PREFIX }

  predicate IsIpv6(ip: IpAddr) { !IsIpv4(ip) && ip[..6] != ONION_PREFIX && !IsInternal(ip) }

  predicate IsValid(ip: IpAddr) {
    && ip[..9] != IPV4_PREFIX[3..]
    && ip != seq(16, _ => 0)
    && !(IsIpv6(ip) && ip[..4] == [0x20, 0x01, 0x0D, 0xB8])
    && !IsInternal(ip)
    && !(IsIpv4(ip) && (ip[12..] == [0xff, 0xff, 0xff, 0xff] || ip[12..] == [0, 0, 0, 0]))
  }

  // ---------- addresses as numbers ----------

  // The bytes as one number, the most significant first.
  function Number(bs: seq<byte>): nat {
    if bs == [] then 0 else 256 * Number(bs[..|bs| - 1]) + bs[|bs| - 1]
  }

  lemma OneByteMore(bs: seq<byte>, b: byte)
    ensures Number(bs + [b]) == 256 * Number(bs) + b
  {
    assert (bs + [b])[..|bs|] == bs;
  }

  // The leading bytes are the quotient by a power of 256.
  lemma {:induction false} Leading(bs: seq<byte>, k: nat)
    requires k <= |bs|
    ensures Number(bs[..k]) == Number(bs) / Pow256(|bs| - k)
    decreases |bs|
  {
    if k < |bs| {
      var front := bs[..|bs| - 1];
      Leading(front, k);
      assert front[..k] == bs[..k] && Number(bs) / 256 == Number(front);
      DivDiv(Number(bs), 256, Pow256(|front| - k));
    } else {
      assert bs[..k] == bs;
    }
  }

  lemma {:induction false} NumberInjective(a: seq<byte>, b: seq<byte>)
    requires |a| == |b| && Number(a) == Number(b)
    ensures a == b
  {
    if a != [] {
      var n := |a| - 1;
      assert Number(a) / 256 == Number(a[..n]) && Number(b) / 256 == Number(b[..n]);
      assert a[n] == b[n];
      NumberInjective(a[..n], b[..n]);
      assert a == a[..n] + [a[n]] && b == b[..n] + [b[n]];
    }
  }

  lemma StartsWith(ip: IpAddr, start: seq<byte>, n: nat)
    requires |start| <= 16 && Number(start) == n
    ensures ip[..|start|] == start <==> Number(ip) / Pow256(16 - |start|) == n
  {
    Leading(ip, |start|);
    if Number(ip[..|start|]) == n { NumberInjective(ip[..|start|], start); }
  }

  lemma {:induction false} Zeros(k: nat)
    ensures Number(seq(k, _ => 0)) == 0
  {
    var zeros: seq<byte> := seq(k, _ => 0);
    if k > 0 {
      Zeros(k - 1);
      assert zeros[..k - 1] == seq(k - 1, _ => 0);
    }
  }

  // Zeros and two bytes 255.
  lemma MappedNumber(k: nat, start: seq<byte>)
    requires |start| == k + 2 && start[k] == start[k + 1] == 0xff && forall i :: 0 <= i < k ==> start[i] == 0
    ensures Number(start) == 0xffff
  {
    var zeros: seq<byte> := seq(k, _ => 0);
    Zeros(k);
    OneByteMore(zeros, 0xff);
    OneByteMore(zeros + [0xff], 0xff);
    assert start == zeros + [0xff] + [0xff];
  }

  lemma FourNumber(a: byte, b: byte, c: byte, d: byte)
    ensures Number([a, b, c, d]) == 0x100_0000 * a + 0x1_0000 * b + 0x100 * c + d
  {
    OneByteMore([], a);
    OneByteMore([a], b);
    OneByteMore([a, b], c);
    OneByteMore([a, b, c], d);
    assert [] + [a] == [a] && [a] + [b] == [a, b] && [a, b] + [c] == [a, b, c] && [a, b, c] + [d] == [a, b, c, d];
  }

  lemma SixNumber(a: byte, b: byte, c: byte, d: byte, e: byte, f: byte)
    ensures Number([a, b, c, d, e, f]) ==
            0x100_0000_0000 * a + 0x1_0000_0000 * b + 0x100_0000 * c + 0x1_0000 * d + 0x100 * e + f
  {
    FourNumber(a, b, c, d);
    OneByteMore([a, b, c, d], e);
    OneByteMore([a, b, c, d, e], f);
    assert [a, b, c, d] + [e] == [a, b, c, d, e] && [a, b, c, d, e] + [f] == [a, b, c, d, e, f];
  }

  lemma MappedByNumber(ip: IpAddr)
    ensures IsIpv4(ip) <==> Number(ip) / Pow256(4) == 0xffff
    ensures ip[..9] == IPV4_PREFIX[3..] <==> Number(ip) / Pow256(7) == 0xffff
  {
    MappedNumber(10, IPV4_PREFIX);
    StartsWith(ip, IPV4_PREFIX, 0xffff);
    MappedNumber(7, IPV4_PREFIX[3..]);
    StartsWith(ip, IPV4_PREFIX[3..], 0xffff);
  }

  lemma DocumentationByNumber(ip: IpAddr)
    ensures ip[..4] == [0x20, 0x01, 0x0D, 0xB8] <==> Number(ip) / Pow256(12) == 0x2001_0db8
  {
    FourNumber(0x20, 0x01, 0x0D, 0xB8);
    StartsWith(ip, [0x20, 0x01, 0x0D, 0xB8], 0x2001_0db8);
  }

  /** The kinds of address by their leading bytes, read as numbers. */
  lemma KindsByNumber(ip: IpAddr)
    ensures IsIpv4(ip) <==> Number(ip) / Pow256(4) == 0xffff
    ensures IsInternal(ip) <==> Number(ip) / Pow256(10) == 0xfd6b_88c0_8724
    ensures IsIpv6(ip) <==> !IsIpv4(ip) && !IsInternal(ip) && Number(ip) / Pow256(10) != 0xfd87_d87e_eb43
  {
    MappedByNumber(ip);
    SixNumber(0xFD, 0x6B, 0x88, 0xC0, 0x87, 0x24);
    StartsWith(ip, INTERNAL_PREFIX, 0xfd6b_88c0_8724);
    SixNumber(0xFD, 0x87, 0xD8, 0x7E, 0xEB, 0x43);
    StartsWith(ip, ONION_PREFIX, 0xfd87_d87e_eb43);
  }

  // An IPv4-mapped address by its last four bytes.
  lemma MappedTail(ip: IpAddr, tail: seq<byte>, n: nat)
    requires |tail| == 4 && Number(tail) == n
    ensures IsIpv4(ip) && ip[12..] == tail <==> Number(ip) == 0xffff_0000_0000 + n
  {
    var whole := IPV4_PREFIX + tail;
    MappedNumber(10, IPV4_PREFIX);
    WholeNumber(IPV4_PREFIX, tail);
    if Number(ip) == Number(whole) { NumberInjective(ip, whole); }
    assert IsIpv4(ip) && ip[12..] == tail ==> ip == whole;
  }

  lemma WholeNumber(bs: seq<byte>, tail: seq<byte>)
    requires |tail| == 4
    ensures Number(bs + tail) == 0x1_0000_0000 * Number(bs) + Number(tail)
  {
    FourNumber(tail[0], tail[1], tail[2], tail[3]);
    assert tail == [tail[0], tail[1], tail[2], tail[3]];
    OneByteMore(bs, tail[0]);
    OneByteMore(bs + tail[..1], tail[1]);
    OneByteMore(bs + tail[..2], tail[2]);
    OneByteMore(bs + tail[..3], tail[3]);
    assert bs + tail[..1] == bs + [tail[0]] && bs + tail[..2] == bs + tail[..1] + [tail[1]];
    assert bs + tail[..3] == bs + tail[..2] + [tail[2]] && bs + tail == bs + tail[..3] + [tail[3]];
  }

  /** An address is valid exactly when it is not zero, not shifted by three bytes, not in the documentation range of
      RFC 3849, not internal, and neither the first nor the last IPv4-mapped one. */
  lemma ValidByNumber(ip: IpAddr)
    ensures var n := Number(ip);
            IsValid(ip) <==>
            && n != 0 && n / Pow256(7) != 0xffff && n / Pow256(12) != 0x2001_0db8
            && n / Pow256(10) != 0xfd6b_88c0_8724 && n != 0xffff_0000_0000 && n != 0xffff_ffff_ffff
  {
    KindsByNumber(ip);
    MappedByNumber(ip);
    DocumentationByNumber(ip);
    Zeros(16);
    if Number(ip) == 0 { NumberInjective(ip, seq(16, _ => 0)); }
    FourNumber(0, 0, 0, 0);
    MappedTail(ip, [0, 0, 0, 0], 0);
    FourNumber(0xff, 0xff, 0xff, 0xff);
    MappedTail(ip, [0xff, 0xff, 0xff, 0xff], 0xffff_ffff);
    if ip[..4] == [0x20, 0x01, 0x0D, 0xB8] { DocumentationIsIpv6(ip); }
  }

  lemma DocumentationIsIpv6(ip: IpAddr)
    requires ip[..4] == [0x20, 0x01, 0x0D, 0xB8]
    ensures IsIpv6(ip)
  {
    assert ip[0] == ip[..4][0] == 0x20;
  }

  // Bit i of an address or a netmask, from the most significant bit of the first byte.
  predicate BitAt(bs: seq<byte>, i: int)
    requires |bs| == 16 && 0 <= i < 128
  {
    Bit(bs[i / 8], 7 - i % 8)
  }

  lemma BitOfByte(bs: seq<byte>, x: int, j: int)
    requires |bs| == 16 && 0 <= x < 16 && 0 <= j < 8
    ensures BitAt(bs, 8 * x + 7 - j) == Bit(bs[x], j)
  {
    assert (8 * x + 7 - j) / 8 == x && (8 * x + 7 - j) % 8 == 7 - j;
  }

  lemma ByteFromBits(a: byte, b: byte)
    requires forall j :: 0 <= j < 8 ==> Bit(a, j) == Bit(b, j)
    ensures a == b
  {
    assert Pow2(8) == 256;
    SameBits(a, b, 8);
  }

  lemma FullByte(j: nat)
    requires j < 8
    ensures Bit(0xff, j)
  {
    assert j == 0 || j == 1 || j == 2 || j == 3 || j == 4 || j == 5 || j == 6 || j == 7;
  }

  // ---------- netmasks ----------

  /** From bit `start` on, the mask has exactly n ones, in front. */
  ghost predicate IsPrefixMask(mask: seq<byte>, start: nat, n: int) {
    |mask| == 16 && 0 <= n <= 128 - start &&
    forall i {:trigger BitAt(mask, i)} :: start <= i < 128 ==> (BitAt(mask, i) <==> i < start + n)
  }

  // Where the bits of the mask that matter begin.
  function Start(ip: IpAddr): nat { if IsIpv4(ip) then 96 else 0 }

  // The address with the bits outside the mask cleared.
  function Masked(ip: IpAddr, mask: IpAddr): IpAddr {
    AndIsByte(ip, mask);
    seq(16, i requires 0 <= i < 16 => And(ip[i], mask[i]) as byte)
  }

  lemma AndIsByte(ip: IpAddr, mask: IpAddr)
    ensures forall i :: 0 <= i < 16 ==> And(ip[i], mask[i]) < 256
  {
    forall i | 0 <= i < 16
      ensures And(ip[i], mask[i]) < 256
    {
      AndBit(ip[i], mask[i], 0);
    }
  }

  lemma MaskedBit(ip: IpAddr, mask: IpAddr, i: int)
    requires 0 <= i < 128
    ensures BitAt(Masked(ip, mask), i) <==> BitAt(ip, i) && BitAt(mask, i)
  {
    AndBit(ip[i / 8], mask[i / 8], 7 - i % 8);
  }

  // Two addresses agree on the bits of a mask.
  ghost predicate Agree(a: IpAddr, b: IpAddr, mask: IpAddr) {
    forall i {:trigger BitAt(mask, i)} :: 0 <= i < 128 && BitAt(mask, i) ==> BitAt(a, i) == BitAt(b, i)
  }

  // Two bytes agree on the bits of a third.
  ghost predicate AgreeByte(a: byte, b: byte, m: byte) {
    forall j {:trigger Bit(m, j)} :: 0 <= j < 8 && Bit(m, j) ==> Bit(a, j) == Bit(b, j)
  }

  lemma MaskedByteIff(a: byte, b: byte, m: byte)
    ensures And(a, m) == And(b, m) <==> AgreeByte(a, b, m)
  {
    forall j | 0 <= j < 8
      ensures Bit(And(a, m), j) == (Bit(a, j) && Bit(m, j)) && Bit(And(b, m), j) == (Bit(b, j) && Bit(m, j))
    {
      AndBit(a, m, j);
      AndBit(b, m, j);
    }
    AndBit(a, m, 0);
    AndBit(b, m, 0);
    if AgreeByte(a, b, m) {
      ByteFromBits(And(a, m), And(b, m));
    } else {
      var j :| 0 <= j < 8 && Bit(m, j) && Bit(a, j) != Bit(b, j);
      assert Bit(And(a, m), j) != Bit(And(b, m), j);
    }
  }

  /** Two addresses are the same under a mask exactly when they agree on its bits. */
  lemma MaskedIff(a: IpAddr, b: IpAddr, mask: IpAddr)
    ensures Masked(a, mask) == Masked(b, mask) <==> Agree(a, b, mask)
  {
    if Agree(a, b, mask) {
      forall x | 0 <= x < 16
        ensures Masked(a, mask)[x] == Masked(b, mask)[x]
      {
        forall j | 0 <= j < 8 && Bit(mask[x], j)
          ensures Bit(a[x], j) == Bit(b[x], j)
        {
          BitOfByte(a, x, j);
          BitOfByte(b, x, j);
          BitOfByte(mask, x, j);
        }
        MaskedByteIff(a[x], b[x], mask[x]);
      }
    }
    if Masked(a, mask) == Masked(b, mask) {
      forall i | 0 <= i < 128 && BitAt(mask, i)
        ensures BitAt(a, i) == BitAt(b, i)
      {
        MaskedBit(a, mask, i);
        MaskedBit(b, mask, i);
      }
    }
  }

  // ---------- a mask by its prefix length ----------

  // Bits of a mask where the first n are ones and the rest, from n on, are zeros.
  lemma FullByteOfMask(mask: IpAddr, n: int, x: int)
    requires IsPrefixMask(mask, 0, n) && 0 <= x < 16
    ensures mask[x] == 0xff <==> n >= 8 * (x + 1)
  {
    forall j | 0 <= j < 8
      ensures Bit(mask[x], j) <==> 8 * x + 7 - j < n
      ensures Bit(0xff, j)
    {
      BitOfByte(mask, x, j);
      FullByte(j);
    }
    if n >= 8 * (x + 1) {
      ByteFromBits(mask[x], 0xff);
    } else {
      assert !Bit(mask[x], 0);
    }
  }

  // m stands for 0xff, which as a literal would make the solver unfold the conjunction.
  lemma AndFull(b: byte, m: byte)
    requires m == 0xff
    ensures And(b, m) == b
  {
    forall j | 0 <= j < 8
      ensures Bit(And(b, m), j) == Bit(b, j) && And(b, m) <= b
    {
      AndBit(b, m, j);
      FullByte(j);
    }
    AndBit(b, m, 0);
    ByteFromBits(And(b, m), b);
  }

  lemma AndGivesFull(a: byte, m: byte)
    requires And(a, m) == 0xff
    ensures m == 0xff
  {
    AndCommutes(a, m);
    AndBit(m, a, 0);
  }

  // Masking keeps the first bytes when it covers them.
  lemma KeepsPrefix(ip: IpAddr, mask: IpAddr, n: int)
    requires IsPrefixMask(mask, 0, n) && n >= 96
    ensures Masked(ip, mask)[..12] == ip[..12]
  {
    forall x | 0 <= x < 12
      ensures Masked(ip, mask)[x] == ip[x]
    {
      FullByteOfMask(mask, n, x);
      AndFull(ip[x], mask[x]);
    }
  }

  /** Clearing the bits behind a prefix neither makes nor unmakes an IPv4-mapped address, when the prefix of a mapped
      address is at least its 96 bits. */
  lemma StaysMapped(ip: IpAddr, mask: IpAddr, n: int)
    requires IsPrefixMask(mask, 0, n) && (IsIpv4(ip) ==> n >= 96)
    ensures IsIpv4(Masked(ip, mask)) == IsIpv4(ip)
  {
    if n >= 96 {
      KeepsPrefix(ip, mask, n);
    } else if IsIpv4(Masked(ip, mask)) {
      assert Masked(ip, mask)[..12][11] == 0xff;
      AndGivesFull(ip[11], mask[11]);
      FullByteOfMask(mask, n, 11);
    }
  }

  /** Under a prefix mask, addresses agree exactly when their first n bits do. */
  lemma AgreeOnPrefix(a: IpAddr, b: IpAddr, mask: IpAddr, n: int)
    requires IsPrefixMask(mask, 0, n)
    ensures Agree(a, b, mask) <==> forall i {:trigger BitAt(a, i)} :: 0 <= i < n ==> BitAt(a, i) == BitAt(b, i)
  {
    if Agree(a, b, mask) {
      forall i | 0 <= i < n
        ensures BitAt(a, i) == BitAt(b, i)
      {
        assert BitAt(mask, i);
      }
    }
  }

  // ---------- the prefix length of a mask ----------

  // Ones in front of zeros.
  function HighOnes(ones: nat, zeros: nat): nat {
    if zeros == 0 then Pow2(ones) - 1 else 2 * HighOnes(ones, zeros - 1)
  }

  lemma {:induction false} HighOnesBit(ones: nat, zeros: nat, k: nat)
    ensures Bit(HighOnes(ones, zeros), k) <==> zeros <= k < zeros + ones
    decreases zeros, ones, k
  {
    if zeros > 0 {
      if k > 0 { HighOnesBit(ones, zeros - 1, k - 1); }
    } else if ones == 0 {
      NoBit(k);
    } else if k > 0 {
      assert (Pow2(ones) - 1) / 2 == Pow2(ones - 1) - 1;
      HighOnesBit(ones - 1, 0, k - 1);
    }
  }

  // The byte with r ones in front, for r from 0 to 8, extended to all r.
  function PrefixByte(r: int): nat {
    if r <= 0 then 0 else if r >= 8 then 0xff else HighOnes(r, 8 - r)
  }

  lemma PrefixByteBit(r: int, j: nat)
    requires j < 8
    ensures Bit(PrefixByte(r), j) <==> 7 - j < r
  {
    if r <= 0 {
      NoBit(j);
    } else if r >= 8 {
      FullByte(j);
    } else {
      HighOnesBit(r, 8 - r, j);
    }
  }

  function NetmaskBits(x: byte): (r: int)
    ensures -1 <= r <= 8
  {
    match x
    case 0x00 => 0
    case 0x80 => 1
    case 0xc0 => 2
    case 0xe0 => 3
    case 0xf0 => 4
    case 0xf8 => 5
    case 0xfc => 6
    case 0xfe => 7
    case 0xff => 8
    case _ => -1
  }

  /** The nine bytes that have a prefix length are those with their ones in front. */
  lemma NetmaskBitsMeans(x: byte, r: int)
    requires 0 <= r <= 8
    ensures NetmaskBits(x) == r <==> x == PrefixByte(r)
  {
    assert HighOnes(1, 7) == 0x80 && HighOnes(2, 6) == 0xc0 && HighOnes(3, 5) == 0xe0 && HighOnes(4, 4) == 0xf0;
    assert HighOnes(5, 3) == 0xf8 && HighOnes(6, 2) == 0xfc && HighOnes(7, 1) == 0xfe;
    assert r == 0 || r == 1 || r == 2 || r == 3 || r == 4 || r == 5 || r == 6 || r == 7 || r == 8;
  }

  // From byte s on, the mask's bytes have c ones in front.
  ghost predicate IsPrefixBytes(mask: IpAddr, s: nat, c: int) {
    forall x :: s <= x < 16 ==> mask[x] == PrefixByte(c - 8 * (x - s))
  }

  lemma PrefixMaskByte(mask: IpAddr, s: nat, c: int, x: nat)
    requires s <= x < 16 && IsPrefixMask(mask, 8 * s, c)
    ensures mask[x] == PrefixByte(c - 8 * (x - s))
  {
    var r := c - 8 * (x - s);
    assert PrefixByte(r) < 256 by { if 0 < r < 8 { NetmaskBitsMeans(0, r); HighOnesBelow(r); } }
    forall j | 0 <= j < 8
      ensures Bit(mask[x], j) == Bit(PrefixByte(r), j)
    {
      BitOfByte(mask, x, j);
      PrefixByteBit(r, j);
    }
    ByteFromBits(mask[x], PrefixByte(r));
  }

  lemma HighOnesBelow(r: int)
    requires 0 < r < 8
    ensures HighOnes(r, 8 - r) < 256
  {
    assert HighOnes(1, 7) == 0x80 && HighOnes(2, 6) == 0xc0 && HighOnes(3, 5) == 0xe0 && HighOnes(4, 4) == 0xf0;
    assert HighOnes(5, 3) == 0xf8 && HighOnes(6, 2) == 0xfc && HighOnes(7, 1) == 0xfe;
    assert r == 1 || r == 2 || r == 3 || r == 4 || r == 5 || r == 6 || r == 7;
  }

  lemma PrefixBytesAreMask(mask: IpAddr, s: nat, c: int)
    requires s < 16 && 0 <= c <= 128 - 8 * s
    ensures IsPrefixBytes(mask, s, c) <==> IsPrefixMask(mask, 8 * s, c)
  {
    if IsPrefixBytes(mask, s, c) {
      forall i | 8 * s <= i < 128
        ensures BitAt(mask, i) <==> i < 8 * s + c
      {
        PrefixByteBit(c - 8 * (i / 8 - s), 7 - i % 8);
      }
    }
    if IsPrefixMask(mask, 8 * s, c) {
      forall x | s <= x < 16
        ensures mask[x] == PrefixByte(c - 8 * (x - s))
      {
        PrefixMaskByte(mask, s, c, x);
      }
    }
  }

  lemma FullMask(mask: IpAddr)
    requires forall x :: 0 <= x < 16 ==> mask[x] == 0xff
    ensures IsPrefixMask(mask, 0, 128)
  {
    forall i | 0 <= i < 128
      ensures BitAt(mask, i)
    {
      FullByte(7 - i % 8);
    }
  }

  lemma KeepsAll(ip: IpAddr, mask: IpAddr)
    requires forall x :: 0 <= x < 16 ==> mask[x] == 0xff
    ensures Masked(ip, mask) == ip
  {
    forall x | 0 <= x < 16
      ensures Masked(ip, mask)[x] == ip[x]
    {
      AndFull(ip[x], mask[x]);
    }
  }

  // netmask_[n >> 3] &= ~(1 << (7 - (n & 7)))
  method ClearMaskBit(mask: array<byte>, n: nat)
    requires mask.Length == 16 && n < 128
    modifies mask
    ensures forall i {:trigger BitAt(mask[..], i)} ::
              0 <= i < 128 ==> (BitAt(mask[..], i) <==> i != n && BitAt(old(mask[..]), i))
  {
    ghost var was := mask[..];
    ClearBitBit(mask[n / 8], 7 - n % 8, 0);
    mask[n / 8] := ClearBit(mask[n / 8], 7 - n % 8);
    forall i | 0 <= i < 128
      ensures BitAt(mask[..], i) <==> i != n && BitAt(was, i)
    {
      if i / 8 == n / 8 { ClearBitBit(was[n / 8], 7 - n % 8, 7 - i % 8); }
    }
  }

  // ---------- subnets ----------

  // Full bytes, one byte with some ones in front, and zero bytes.
  lemma Counted(mask: IpAddr, s: nat, stop: nat, cidr: int)
    requires s <= stop <= 16 && s < 16
    requires forall x :: s <= x < stop ==> mask[x] == 0xff
    requires forall x :: stop < x < 16 ==> mask[x] == 0
    requires if stop == 16 then cidr == 8 * (16 - s)
             else 0 <= cidr - 8 * (stop - s) < 8 && NetmaskBits(mask[stop]) == cidr - 8 * (stop - s)
    ensures IsPrefixMask(mask, 8 * s, cidr)
  {
    if stop < 16 { NetmaskBitsMeans(mask[stop], cidr - 8 * (stop - s)); }
    forall x | s <= x < 16
      ensures mask[x] == PrefixByte(cidr - 8 * (x - s))
    {
      if x < stop {
        assert cidr - 8 * (x - s) >= 8;
      } else if x > stop {
        assert cidr - 8 * (x - s) <= 0;
      }
    }
    PrefixBytesAreMask(mask, s, cidr);
  }

  class SubNet {
    var netAddr: IpAddr
    const netmask: array<byte>
    var valid: bool
    // The address that the subnet was made from.
    ghost const base: IpAddr

    // The netmask as a value.
    ghost function Mask(): IpAddr
      requires netmask.Length == 16
      reads netmask
    {
      netmask[..]
    }

    /** The network address is the original address under the mask. */
    ghost predicate Sound()
      reads this, netmask
    {
      netmask.Length == 16 && netAddr == Masked(base, Mask())
    }

    /** A single address: every bit of the mask is set. */
    constructor FromAddress(ip: IpAddr)
      ensures Sound() && fresh(netmask) && base == ip
      ensures valid <==> IsValid(ip)
      ensures netAddr == ip && IsPrefixMask(Mask(), 0, 128)
    {
      netAddr, netmask, valid, base := ip, new byte[16](_ => 0xff), IsValid(ip), ip;
      new;
      FullMask(netmask[..]);
      KeepsAll(ip, netmask[..]);
    }

    /** The subnet of an address and a prefix length: exactly the first bits of the mask are set, counted from the start
        of the address or, for an IPv4-mapped one, behind its 96 bits; a length out of range makes the subnet invalid
        and leaves the mask full. */
    constructor FromPrefix(ip: IpAddr, prefix: int32)
      ensures Sound() && fresh(netmask) && base == ip
      ensures valid <==> 0 <= prefix <= if IsIpv4(ip) then 32 else 128
      ensures IsPrefixMask(Mask(), 0, if !valid then 128 else if IsIpv4(ip) then 96 + prefix else prefix)
      ensures IsIpv4(netAddr) == IsIpv4(ip)
    {
      netAddr, netmask, valid, base := ip, new byte[16](_ => 0xff), true, ip;
      new;
      var offset := if IsIpv4(netAddr) then 12 else 0;
      FullMask(netmask[..]);
      var n: int := prefix;
      if n >= 0 && n <= 128 - offset * 8 {
        n := n + offset * 8;
        ghost var first := n;
        while n < 128
          invariant first <= n <= 128 && netAddr == ip && valid
          invariant forall i {:trigger BitAt(netmask[..], i)} ::
                      0 <= i < 128 ==> (BitAt(netmask[..], i) <==> i < first || i >= n)
        {
          ClearMaskBit(netmask, n);
          n := n + 1;
        }
        assert IsPrefixMask(netmask[..], 0, first);
        StaysMapped(ip, netmask[..], first);
      } else {
        valid := false;
        assert IsPrefixMask(netmask[..], 0, 128);
        StaysMapped(ip, netmask[..], 128);
      }
      Normalize();
    }

    /** The subnet of an address and any mask, of which an IPv4-mapped address uses the last four bytes. */
    constructor FromMask(ip: IpAddr, mask: IpAddr)
      ensures Sound() && fresh(netmask) && base == ip && valid
      ensures forall x :: 0 <= x < 16 ==> Mask()[x] == if IsIpv4(ip) && x < 12 then 0xff else mask[x]
    {
      netAddr, netmask, valid, base := ip, new byte[16](_ => 0xff), true, ip;
      new;
      var offset := if IsIpv4(netAddr) then 12 else 0;
      for x := offset to 16
        invariant netAddr == ip && valid
        invariant forall y :: 0 <= y < 16 ==> netmask[y] == if offset <= y < x then mask[y] else 0xff
      {
        netmask[x] := mask[x];
      }
      Normalize();
    }

    // Clears the bits of the address outside the mask.
    method Normalize()
      requires netmask.Length == 16 && netAddr == base
      modifies `netAddr
      ensures Sound()
    {
      AndIsByte(base, netmask[..]);
      for x := 0 to 16
        invariant netAddr == Masked(base, Mask())[..x] + base[x..]
      {
        netAddr := netAddr[x := And(netAddr[x], netmask[x])];
      }
    }

    // The comparison loop of Match.
    method SharesBytes(ip: IpAddr) returns (r: bool)
      requires netmask.Length == 16
      ensures r <==> Masked(ip, Mask()) == netAddr
    {
      ghost var masked := Masked(ip, Mask());
      for i := 0 to 16
        invariant masked[..i] == netAddr[..i]
      {
        assert And(ip[i], netmask[i]) == masked[i];
        if And(ip[i], netmask[i]) != netAddr[i] {
          return false;
        }
      }
      return true;
    }

    /** A valid subnet matches exactly the valid addresses that share the bits of its mask with the original address. */
    method Match(ip: IpAddr) returns (r: bool)
      requires Sound()
      ensures r <==> valid && IsValid(ip) && Agree(ip, base, Mask())
    {
      MaskedIff(ip, base, Mask());
      if !valid || !IsValid(ip) {
        return false;
      }
      r := SharesBytes(ip);
    }

    /** The count that is printed behind the address: the number of ones when these are all in front, or none. */
    method PrefixCount() returns (count: int)
      requires Sound()
      ensures count >= 0 ==> IsPrefixMask(Mask(), Start(netAddr), count)
      ensures count < 0 ==> forall c :: !IsPrefixMask(Mask(), Start(netAddr), c)
    {
      var cidr := 0;
      var validCidr := true;
      var n: nat := if IsIpv4(netAddr) then 12 else 0;
      ghost var s, mask := n, Mask();
      while n < 16 && netmask[n] == 0xff
        invariant s <= n <= 16 && cidr == 8 * (n - s)
        invariant forall x :: s <= x < n ==> mask[x] == 0xff
      {
        cidr := cidr + 8;
        n := n + 1;
      }
      ghost var stop := n;
      if n < 16 {
        var bits := NetmaskBits(netmask[n]);
        ByteDecides(mask, s, n, bits);
        if bits < 0 {
          validCidr := false;
        } else {
          cidr := cidr + bits;
        }
        n := n + 1;
      }
      while n < 16 && validCidr
        invariant n <= 16 && stop <= n && (stop < n || stop == 16)
        invariant validCidr ==> stop == 16 || 0 <= NetmaskBits(mask[stop]) == cidr - 8 * (stop - s)
        invariant validCidr ==> forall x :: stop < x < n ==> mask[x] == 0
        invariant !validCidr ==> forall c :: !IsPrefixMask(mask, 8 * s, c)
      {
        if netmask[n] != 0x00 {
          LaterByteDecides(mask, s, stop, n);
          validCidr := false;
        }
        n := n + 1;
      }
      if !validCidr {
        return -1;
      }
      Counted(mask, s, stop, cidr);
      return cidr;
    }
  }

  // A byte that is not full decides whether there is a prefix length.
  lemma ByteDecides(mask: IpAddr, s: nat, n: nat, bits: int)
    requires s <= n < 16 && mask[n] != 0xff && bits == NetmaskBits(mask[n])
    ensures bits < 8
    ensures bits < 0 ==> forall c :: !IsPrefixMask(mask, 8 * s, c)
  {
    forall c | IsPrefixMask(mask, 8 * s, c)
      ensures bits >= 0
    {
      PrefixMaskByte(mask, s, c, n);
      var r := c - 8 * (n - s);
      NetmaskBitsMeans(mask[n], if r < 0 then 0 else r);
    }
  }

  // Behind a byte that is not full, all bytes of a prefix mask are zero.
  lemma LaterByteDecides(mask: IpAddr, s: nat, n: nat, later: nat)
    requires s <= n < later < 16 && mask[n] != 0xff && mask[later] != 0
    ensures forall c :: !IsPrefixMask(mask, 8 * s, c)
  {
    forall c
      ensures !IsPrefixMask(mask, 8 * s, c)
    {
      if IsPrefixMask(mask, 8 * s, c) {
        PrefixMaskByte(mask, s, c, n);
        PrefixMaskByte(mask, s, c, later);
        assert false;
      }
    }
  }

  /** The prefix length that a mask was made from is the one that is read back. */
  lemma PrefixIsUnique(mask: IpAddr, start: nat, n: int, c: int)
    requires IsPrefixMask(mask, start, n) && IsPrefixMask(mask, start, c)
    ensures n == c
  {
    assert start + n < 128 ==> !BitAt(mask, start + n);
    assert start + c < 128 ==> !BitAt(mask, start + c);
  }

  /** From address and prefix length in range to the printed count and back. */
  method PrefixRoundTrip(ip: IpAddr, prefix: int32) returns (count: int)
    requires 0 <= prefix <= 128 - Start(ip)
    ensures count == prefix
  {
    var net := new SubNet.FromPrefix(ip, prefix);
    var start := Start(ip);
    ghost var mask := net.Mask();
    assert Start(net.netAddr) == start && IsPrefixMask(mask, start, prefix);
    count := net.PrefixCount();
    assert mask == net.Mask();
    if count >= 0 { PrefixIsUnique(mask, start, prefix, count); }
  }
}

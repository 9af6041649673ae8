/** Hexadecimal text of byte strings. */
module HexText {
  import opened Bits
  import opened Bytes

  const HEXMAP := "0123456789abcdef"

  // The two digits of a byte.
  function Digits(b: byte): string { [HEXMAP[b / 16], HEXMAP[b % 16]] }

  function Hex(bs: seq<byte>, spaces: bool): string {
    if bs == [] then ""
    else
      var front := bs[..|bs| - 1];
      Hex(front, spaces) + (if spaces && front != [] then " " else "") + Digits(bs[|bs| - 1])
  }

  lemma Nibbles(b: byte)
    ensures Shr(b, 4) == b / 16 && And(b, 15) == b % 16
  {
    assert Pow2(4) == 16;
    ShrIsDiv(b, 4);
    AndMask(b, 4);
  }

  // Encodes byte by byte, with spaces between if asked for.
  method EncodeHex(bs: seq<byte>, spaces: bool) returns (rv: string)
    ensures rv == Hex(bs, spaces)
  {
    rv := "";
    for k := 0 to |bs|
      invariant rv == Hex(bs[..k], spaces)
    {
      assert bs[..k + 1][..k] == bs[..k];
      Nibbles(bs[k]);
      if spaces && k != 0 {
        rv := rv + " ";
      }
      rv := rv + [HEXMAP[Shr(bs[k], 4)]];
      rv := rv + [HEXMAP[And(bs[k], 15)]];
    }
    assert bs[..|bs|] == bs;
  }

  lemma {:induction false} HexLength(bs: seq<byte>, spaces: bool)
    ensures |Hex(bs, spaces)| == if bs == [] then 0 else if spaces then 3 * |bs| - 1 else 2 * |bs|
  {
    if bs != [] { HexLength(bs[..|bs| - 1], spaces); }
  }

  lemma DigitsInjective(a: byte, b: byte)
    requires Digits(a) == Digits(b)
    ensures a == b
  {
    assert HEXMAP[a / 16] == HEXMAP[b / 16] && HEXMAP[a % 16] == HEXMAP[b % 16];
    HexmapInjective(a / 16, b / 16);
    HexmapInjective(a % 16, b % 16);
  }

  lemma HexmapInjective(i: nat, j: nat)
    requires i < 16 && j < 16 && HEXMAP[i] == HEXMAP[j]
    ensures i == j
  {
    assert forall k :: 0 <= k < 10 ==> HEXMAP[k] as int == k + 48;
    assert forall k :: 10 <= k < 16 ==> HEXMAP[k] as int == k + 87;
  }

  // The text of the front, and the digits of the last byte at the end.
  lemma HexEnds(bs: seq<byte>, spaces: bool)
    requires bs != []
    ensures var s, front := Hex(bs, spaces), bs[..|bs| - 1];
            |s| >= 2 && s[|s| - 2..] == Digits(bs[|bs| - 1]) && |Hex(front, spaces)| <= |s| &&
            s[..|Hex(front, spaces)|] == Hex(front, spaces)
  {
  }

  lemma SameEnds(a: seq<byte>, b: seq<byte>)
    requires |a| == |b| > 0 && a[..|a| - 1] == b[..|b| - 1] && a[|a| - 1] == b[|b| - 1]
    ensures a == b
  {
    assert a == a[..|a| - 1] + [a[|a| - 1]] && b == b[..|b| - 1] + [b[|b| - 1]];
  }

  /** Different byte strings have different texts. */
  lemma {:induction false} HexInjective(a: seq<byte>, b: seq<byte>, spaces: bool)
    requires Hex(a, spaces) == Hex(b, spaces)
    ensures a == b
  {
    HexLength(a, spaces);
    HexLength(b, spaces);
    if a != [] {
      var frontA, frontB := a[..|a| - 1], b[..|b| - 1];
      HexLength(frontA, spaces);
      HexLength(frontB, spaces);
      HexEnds(a, spaces);
      HexEnds(b, spaces);
      DigitsInjective(a[|a| - 1], b[|b| - 1]);
      HexInjective(frontA, frontB, spaces);
      SameEnds(a, b);
    }
  }

  // ---------- the text by position ----------

  // The digits of a byte, by their character codes: '0' is 48, 'a' is 97.
  lemma DigitCodes(b: byte)
    ensures Digits(b)[0] as int == (if b / 16 < 10 then 48 else 87) + b / 16
    ensures Digits(b)[1] as int == (if b % 16 < 10 then 48 else 87) + b % 16
  {
    assert forall k :: 0 <= k < 10 ==> HEXMAP[k] as int == 48 + k;
    assert forall k :: 10 <= k < 16 ==> HEXMAP[k] as int == 87 + k;
  }

  // A space goes before each byte but the first.
  lemma SpaceBefore(bs: seq<byte>)
    requires |bs| > 1
    ensures var s := Hex(bs, true); |s| >= 3 && s[|s| - 3] == ' '
  {
  }

  // The digits of the last byte stand at the end.
  lemma LastDigits(bs: seq<byte>, spaces: bool)
    requires bs != []
    ensures var s, at := Hex(bs, spaces), (if spaces then 3 else 2) * (|bs| - 1);
            && at + 2 == |s| && s[at..] == Digits(bs[|bs| - 1])
            && (spaces && |bs| > 1 ==> s[at - 1] == ' ')
  {
    HexLength(bs, spaces);
    HexEnds(bs, spaces);
    if spaces && |bs| > 1 { SpaceBefore(bs); }
  }

  // The text of a string begins with the text of its beginning.
  lemma {:induction false} HexPrefix(bs: seq<byte>, spaces: bool, k: nat)
    requires k <= |bs|
    ensures Hex(bs[..k], spaces) <= Hex(bs, spaces)
  {
    if k < |bs| {
      var front := bs[..|bs| - 1];
      HexPrefix(front, spaces, k);
      HexEnds(bs, spaces);
      assert front[..k] == bs[..k];
    } else {
      assert bs[..k] == bs;
    }
  }

  /** Byte i is written at position 2 * i, or 3 * i behind a space. */
  lemma HexAt(bs: seq<byte>, spaces: bool, i: nat)
    requires i < |bs|
    ensures var s, at := Hex(bs, spaces), (if spaces then 3 else 2) * i;
            at + 2 <= |s| && s[at..at + 2] == Digits(bs[i]) && (spaces && i > 0 ==> s[at - 1] == ' ')
  {
    LastDigits(bs[..i + 1], spaces);
    HexPrefix(bs, spaces, i + 1);
    SamePart(Hex(bs[..i + 1], spaces), Hex(bs, spaces), (if spaces then 3 else 2) * i);
  }

  lemma SamePart(short: string, long: string, at: nat)
    requires at + 2 <= |short| && short <= long
    ensures long[at..at + 2] == short[at..at + 2] && (at > 0 ==> long[at - 1] == short[at - 1])
  {
    assert forall k :: 0 <= k < |short| ==> long[k] == short[k];
  }
}

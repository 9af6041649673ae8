/** The wire format of integers, variable-length integers, byte arrays and vectors. */
module Serialization {
  import opened Bits
  import opened Bytes
  import opened Endian

  const MAX_VARDATA_SIZE := 0x0200_0000
  const VARINT_16BITS := 0xfd
  const VARINT_32BITS := 0xfe
  const VARINT_64BITS := 0xff

  /** The outcome of reading: a value and what follows it, an exception, or too few bytes. */
  datatype Parsed<+T> = Parsed(value: T, rest: seq<byte>) | Malformed | Truncated {
    predicate IsFailure() { !Parsed? }

    function PropagateFailure<U>(): Parsed<U>
      requires IsFailure()
    {
      if Malformed? then Malformed else Truncated
    }

    function Extract(): (T, seq<byte>)
      requires !IsFailure()
    {
      (value, rest)
    }
  }

  // Two pieces and what follows them.
  lemma Join(bs: seq<byte>, a: seq<byte>, after: seq<byte>, b: seq<byte>, rest: seq<byte>)
    requires after == b + rest
    ensures bs == a + after <==> bs == a + b + rest
  {
    assert a + (b + rest) == a + b + rest;
  }

  // ---------- integers and arrays of fixed size ----------

  function ParseBytes(k: nat, bs: seq<byte>): (p: Parsed<seq<byte>>)
    ensures p.Parsed? ==> |p.value| == k && bs == p.value + p.rest
  {
    if |bs| < k then Truncated else Parsed(bs[..k], bs[k..])
  }

  function ParseInt(k: nat, bs: seq<byte>): Parsed<nat> {
    var (raw, rest) :- ParseBytes(k, bs);
    Parsed(Value(raw), rest)
  }

  lemma IntRoundTrip(n: nat, k: nat, rest: seq<byte>)
    requires n < Pow256(k)
    ensures ParseInt(k, LittleEndian(n, k) + rest) == Parsed(n, rest)
  {
    var bs := LittleEndian(n, k) + rest;
    assert bs[..k] == LittleEndian(n, k) && bs[k..] == rest;
    ValueOfBytes(n, k);
  }

  lemma IntCanonical(k: nat, bs: seq<byte>)
    requires ParseInt(k, bs).Parsed?
    ensures var p := ParseInt(k, bs); p.value < Pow256(k) && bs == LittleEndian(p.value, k) + p.rest
  {
    BytesOfValue(bs[..k]);
    ValueBelow(bs[..k]);
  }

  lemma Widths()
    ensures Pow256(1) == 0x100 && Pow256(2) == 0x1_0000
    ensures Pow256(4) == 0x1_0000_0000 && Pow256(8) == 0x1_0000_0000_0000_0000
  {
    assert Pow256(1) == 256;
    Pow256Add(1, 1);
    Pow256Add(2, 2);
    Pow256Add(4, 4);
  }

  // ---------- variable-length integers ----------

  function EncodeVarInt(n: uint64): seq<byte> {
    if n < VARINT_16BITS then [n]
    else if n <= 0xffff then [VARINT_16BITS] + LittleEndian(n, 2)
    else if n <= 0xffff_ffff then [VARINT_32BITS] + LittleEndian(n, 4)
    else [VARINT_64BITS] + LittleEndian(n, 8)
  }

  function VarIntSize(n: nat): nat {
    if n < VARINT_16BITS then 1 else if n <= 0xffff then 3 else if n <= 0xffff_ffff then 5 else 9
  }

  // The number after the prefix must be too large for any shorter form.
  function ParseVarInt(bs: seq<byte>): (p: Parsed<nat>)
    ensures p.Parsed? ==> p.value <= MAX_VARDATA_SIZE
  {
    var (prefix, rest) :- ParseInt(1, bs);
    var (n, rest') :-
      if prefix < VARINT_16BITS then Parsed(prefix, rest)
      else ParseInt(if prefix == VARINT_16BITS then 2 else if prefix == VARINT_32BITS then 4 else 8, rest);
    if prefix == VARINT_16BITS && n < VARINT_16BITS then Malformed
    else if prefix == VARINT_32BITS && n <= 0xffff then Malformed
    else if prefix == VARINT_64BITS && n <= 0xffff_ffff then Malformed
    else if n > MAX_VARDATA_SIZE then Malformed
    else Parsed(n, rest')
  }

  /** The layout: one byte up to 252, else a prefix 253, 254 or 255 and two, four or eight bytes, the lowest first. */
  lemma VarIntLayout(n: uint64)
    ensures var e := EncodeVarInt(n);
            && |e| == (if n <= 252 then 1 else if n < 0x1_0000 then 3 else if n < 0x1_0000_0000 then 5 else 9)
            && e[0] == (if n <= 252 then n else if n < 0x1_0000 then 253 else if n < 0x1_0000_0000 then 254 else 255)
            && forall i :: 1 <= i < |e| ==> e[i] == n / Pow256(i - 1) % 256
  {
    var e := EncodeVarInt(n);
    forall i | 1 <= i < |e|
      ensures e[i] == n / Pow256(i - 1) % 256
    {
      ByteAt(n, |e| - 1, i - 1);
    }
  }

  lemma VarIntLength(n: uint64)
    ensures |EncodeVarInt(n)| == VarIntSize(n)
  {
  }

  lemma PrefixByte(b: byte, rest: seq<byte>)
    ensures ParseInt(1, [b] + rest) == Parsed(b, rest)
  {
    Widths();
    assert LittleEndian(b, 1) == [b];
    IntRoundTrip(b, 1, rest);
  }

  /** What was written is read back, unless it exceeds the limit, which is rejected. */
  lemma VarIntRoundTrip(n: uint64, rest: seq<byte>)
    ensures ParseVarInt(EncodeVarInt(n) + rest) == if n <= 0x200_0000 then Parsed(n, rest) else Malformed
  {
    Widths();
    var bs := EncodeVarInt(n) + rest;
    if n < VARINT_16BITS {
      PrefixByte(n, rest);
    } else {
      var k := if n <= 0xffff then 2 else if n <= 0xffff_ffff then 4 else 8;
      var prefix := EncodeVarInt(n)[0];
      var after := LittleEndian(n, k) + rest;
      Join(bs, [prefix], after, LittleEndian(n, k), rest);
      PrefixByte(prefix, after);
      IntRoundTrip(n, k, rest);
    }
  }

  /** Only the shortest form is accepted: writing what was read reproduces the bytes consumed. */
  lemma VarIntCanonical(bs: seq<byte>)
    requires ParseVarInt(bs).Parsed?
    ensures var p := ParseVarInt(bs); p.value <= MAX_VARDATA_SIZE && bs == EncodeVarInt(p.value) + p.rest
  {
    Widths();
    var prefix := ParseInt(1, bs);
    IntCanonical(1, bs);
    assert LittleEndian(prefix.value, 1) == [prefix.value];
    if prefix.value >= VARINT_16BITS {
      var k := if prefix.value == VARINT_16BITS then 2 else if prefix.value == VARINT_32BITS then 4 else 8;
      IntCanonical(k, prefix.rest);
      var p := ParseVarInt(bs);
      assert EncodeVarInt(p.value) == [prefix.value] + LittleEndian(p.value, k);
      Associates([prefix.value], LittleEndian(p.value, k), p.rest);
    }
  }

  // ---------- byte vectors ----------

  function EncodeByteVector(v: seq<byte>): seq<byte>
    requires |v| < 0x1_0000_0000_0000_0000
  {
    EncodeVarInt(|v|) + v
  }

  function ParseByteVector(bs: seq<byte>): (p: Parsed<seq<byte>>)
    ensures p.Parsed? ==> |p.value| <= MAX_VARDATA_SIZE
  {
    var (n, rest) :- ParseVarInt(bs);
    ParseBytes(n, rest)
  }

  lemma ByteVectorRoundTrip(v: seq<byte>, rest: seq<byte>)
    requires |v| <= MAX_VARDATA_SIZE
    ensures ParseByteVector(EncodeByteVector(v) + rest) == Parsed(v, rest)
  {
    VarIntRoundTrip(|v|, v + rest);
    assert EncodeByteVector(v) + rest == EncodeVarInt(|v|) + (v + rest);
    assert (v + rest)[..|v|] == v && (v + rest)[|v|..] == rest;
  }

  lemma ByteVectorCanonical(bs: seq<byte>)
    requires ParseByteVector(bs).Parsed?
    ensures var p := ParseByteVector(bs); |p.value| <= MAX_VARDATA_SIZE && bs == EncodeByteVector(p.value) + p.rest
  {
    VarIntCanonical(bs);
  }

  // ---------- vectors of composite values ----------

  function EncodeAll<T>(xs: seq<T>, encode: T -> seq<byte>): seq<byte> {
    if xs == [] then [] else encode(xs[0]) + EncodeAll(xs[1..], encode)
  }

  function EncodeVector<T>(xs: seq<T>, encode: T -> seq<byte>): seq<byte>
    requires |xs| < 0x1_0000_0000_0000_0000
  {
    EncodeVarInt(|xs|) + EncodeAll(xs, encode)
  }

  function ParseAll<T>(n: nat, parse: seq<byte> -> Parsed<T>, bs: seq<byte>): (p: Parsed<seq<T>>)
    ensures p.Parsed? ==> |p.value| == n
  {
    if n == 0 then Parsed([], bs)
    else
      var (x, rest) :- parse(bs);
      var (xs, rest') :- ParseAll(n - 1, parse, rest);
      Parsed([x] + xs, rest')
  }

  function ParseVector<T>(parse: seq<byte> -> Parsed<T>, bs: seq<byte>): (p: Parsed<seq<T>>)
    ensures p.Parsed? ==> |p.value| <= MAX_VARDATA_SIZE
  {
    var (n, rest) :- ParseVarInt(bs);
    ParseAll(n, parse, rest)
  }

  // Reading inverts writing for the values that fit the limits.
  ghost predicate RoundTrips<T(!new)>(encode: T -> seq<byte>, parse: seq<byte> -> Parsed<T>, fits: T -> bool) {
    forall x: T, rest: seq<byte> {:trigger parse(encode(x) + rest)} ::
      fits(x) ==> parse(encode(x) + rest) == Parsed(x, rest)
  }

  // Writing inverts reading, and only values that fit are read.
  ghost predicate IsCanonical<T(!new)>(encode: T -> seq<byte>, parse: seq<byte> -> Parsed<T>, fits: T -> bool) {
    forall bs: seq<byte> {:trigger parse(bs)} ::
      parse(bs).Parsed? ==> fits(parse(bs).value) && bs == encode(parse(bs).value) + parse(bs).rest
  }

  lemma {:induction false} AllRoundTrip<T(!new)>(xs: seq<T>, rest: seq<byte>, encode: T -> seq<byte>,
                                               parse: seq<byte> -> Parsed<T>, fits: T -> bool)
    requires RoundTrips(encode, parse, fits) && forall x <- xs :: fits(x)
    ensures ParseAll(|xs|, parse, EncodeAll(xs, encode) + rest) == Parsed(xs, rest)
  {
    if xs == [] {
      assert EncodeAll(xs, encode) + rest == rest;
    } else {
      AllRoundTrip(xs[1..], rest, encode, parse, fits);
      var tail := EncodeAll(xs[1..], encode) + rest;
      assert EncodeAll(xs, encode) + rest == encode(xs[0]) + tail;
      assert parse(encode(xs[0]) + tail) == Parsed(xs[0], tail);
      assert xs == [xs[0]] + xs[1..];
    }
  }

  lemma {:induction false} AllCanonical<T(!new)>(n: nat, bs: seq<byte>, encode: T -> seq<byte>,
                                               parse: seq<byte> -> Parsed<T>, fits: T -> bool)
    requires IsCanonical(encode, parse, fits) && ParseAll(n, parse, bs).Parsed?
    ensures var p := ParseAll(n, parse, bs);
            |p.value| == n && (forall x <- p.value :: fits(x)) && bs == EncodeAll(p.value, encode) + p.rest
  {
    if n > 0 {
      var first := parse(bs);
      AllCanonical(n - 1, first.rest, encode, parse, fits);
      var p, tail := ParseAll(n, parse, bs), ParseAll(n - 1, parse, first.rest);
      assert p.value == [first.value] + tail.value && p.value[1..] == tail.value;
    }
  }

  lemma VectorRoundTrip<T(!new)>(xs: seq<T>, rest: seq<byte>, encode: T -> seq<byte>,
                                 parse: seq<byte> -> Parsed<T>, fits: T -> bool)
    requires RoundTrips(encode, parse, fits) && (forall x <- xs :: fits(x)) && |xs| <= MAX_VARDATA_SIZE
    ensures ParseVector(parse, EncodeVector(xs, encode) + rest) == Parsed(xs, rest)
  {
    var after := EncodeAll(xs, encode) + rest;
    VarIntRoundTrip(|xs|, after);
    Join(EncodeVector(xs, encode) + rest, EncodeVarInt(|xs|), after, EncodeAll(xs, encode), rest);
    AllRoundTrip(xs, rest, encode, parse, fits);
  }

  lemma VectorCanonical<T(!new)>(bs: seq<byte>, encode: T -> seq<byte>,
                                 parse: seq<byte> -> Parsed<T>, fits: T -> bool)
    requires IsCanonical(encode, parse, fits) && ParseVector(parse, bs).Parsed?
    ensures var p := ParseVector(parse, bs);
            && |p.value| <= MAX_VARDATA_SIZE && (forall x <- p.value :: fits(x))
            && bs == EncodeVector(p.value, encode) + p.rest
  {
    VarIntCanonical(bs);
    var count := ParseVarInt(bs);
    AllCanonical(count.value, count.rest, encode, parse, fits);
    var p := ParseAll(count.value, parse, count.rest);
    Join(bs, EncodeVarInt(|p.value|), count.rest, EncodeAll(p.value, encode), p.rest);
  }

  lemma Associates(a: seq<byte>, b: seq<byte>, c: seq<byte>)
    ensures a + (b + c) == a + b + c
  {
  }

  lemma {:induction false} EncodeAllJoin<T>(xs: seq<T>, ys: seq<T>, encode: T -> seq<byte>)
    ensures EncodeAll(xs + ys, encode) == EncodeAll(xs, encode) + EncodeAll(ys, encode)
  {
    if xs == [] {
      assert xs + ys == ys;
    } else {
      EncodeAllJoin(xs[1..], ys, encode);
      assert (xs + ys)[1..] == xs[1..] + ys;
      Associates(encode(xs[0]), EncodeAll(xs[1..], encode), EncodeAll(ys, encode));
    }
  }

  /** The layout of a vector: the number of elements, then each behind those before it. */
  lemma VectorLayout<T>(xs: seq<T>, k: nat, encode: T -> seq<byte>)
    requires k < |xs| < 0x1_0000_0000_0000_0000
    ensures EncodeVector(xs, encode) == EncodeVarInt(|xs|) + EncodeAll(xs[..k], encode) + encode(xs[k]) +
                                        EncodeAll(xs[k + 1..], encode)
  {
    assert xs == xs[..k] + xs[k..] && xs[k..][1..] == xs[k + 1..];
    EncodeAllJoin(xs[..k], xs[k..], encode);
  }

  lemma {:induction false} EncodeAllAppend<T>(xs: seq<T>, x: T, encode: T -> seq<byte>)
    ensures EncodeAll(xs + [x], encode) == EncodeAll(xs, encode) + encode(x)
  {
    if xs == [] {
      assert EncodeAll([x][1..], encode) == [];
    } else {
      EncodeAllAppend(xs[1..], x, encode);
      assert (xs + [x])[1..] == xs[1..] + [x];
    }
  }

  // ---------- streams ----------

  class ByteSink {
    var data: seq<byte>

    constructor ()
      ensures data == []
    {
      data := [];
    }

    method Write(buffer: seq<byte>)
      modifies this
      ensures data == old(data) + buffer
    {
      data := data + buffer;
    }
  }

  class ByteSource {
    const container: seq<byte>
    var position: nat

    constructor (container: seq<byte>)
      ensures this.container == container && position == 0
    {
      this.container := container;
      position := 0;
    }

    // What is left to read.
    function Rest(): seq<byte>
      requires position <= |container|
      reads this
    {
      container[position..]
    }

    // Reads as many bytes as there are, up to size; at the end of the container the count is -1.
    method Read(size: nat) returns (buffer: seq<byte>, count: int)
      requires position <= |container|
      modifies this
      ensures position <= |container|
      ensures buffer == if size <= |old(Rest())| then old(Rest())[..size] else old(Rest())
      ensures Rest() == old(Rest())[|buffer|..]
      ensures count == if old(Rest()) == [] then -1 else |buffer|
    {
      if position == |container| {
        return [], -1;
      }
      var amount := |container| - position;
      var result := if size < amount then size else amount;
      buffer := container[position..position + result];
      position := position + result;
      count := result;
    }
  }
}

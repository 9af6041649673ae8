/** Scripts: pushing byte strings and integers, and popping them again. */
module Scripts {
  import opened Bits
  import opened Bytes
  import opened Endian
  import opened Serialization

  const OP_0 := 0x00
  const OP_PUSHDATA1 := 0x4c
  const OP_PUSHDATA2 := 0x4d
  const OP_PUSHDATA4 := 0x4e
  const OP_1 := 0x51

  // ---------- byte strings ----------

  // The opcode and the length that go before a byte string.
  function Prefix(b: seq<byte>): (p: seq<byte>)
    ensures 1 <= |p| <= 5 && p[0] <= OP_PUSHDATA4 && (p[0] == OP_0 <==> b == [])
  {
    if |b| < OP_PUSHDATA1 then [|b|]
    else if |b| <= 0xff then [OP_PUSHDATA1, |b|]
    else if |b| <= 0xffff then [OP_PUSHDATA2] + LittleEndian(|b|, 2)
    else [OP_PUSHDATA4] + LittleEndian(|b|, 4)
  }

  function PushAll(bs: seq<seq<byte>>): seq<byte> {
    if bs == [] then [] else Prefix(bs[0]) + bs[0] + PushAll(bs[1..])
  }

  /** What a pop of data did: nothing, or it moved past the length and found the data, which it leaves in front. */
  /** The layout: up to 75 bytes behind their number, more behind an opcode 76, 77 or 78 and their number in one, two or
      four bytes, the lowest first. */
  lemma PrefixLayout(b: seq<byte>)
    ensures var p := Prefix(b);
            && |p| == (if |b| <= 75 then 1 else if |b| < 0x100 then 2 else if |b| < 0x1_0000 then 3 else 5)
            && p[0] == (if |b| <= 75 then |b| else if |b| < 0x100 then 76 else if |b| < 0x1_0000 then 77 else 78)
            && forall i :: 1 <= i < |p| ==> p[i] == |b| / Pow256(i - 1) % 256
  {
    var p := Prefix(b);
    forall i | 1 <= i < |p|
      ensures p[i] == |b| / Pow256(i - 1) % 256
    {
      if |b| > 0xff { ByteAt(|b|, |p| - 1, i - 1); }
    }
  }

  datatype Popped = Failed | Popped(out: seq<byte>, pc: nat)

  // The length that an opcode announces, and where the data begin.
  datatype Length = NoLength | Length(size: nat, pc: nat)

  function ReadLength(data: seq<byte>, pc: nat, opcode: byte): (r: Length)
    ensures r.Length? ==> r.pc >= pc
  {
    if pc >= |data| || opcode == OP_0 || opcode > OP_PUSHDATA4 then NoLength
    else if opcode < OP_PUSHDATA1 then Length(opcode, pc)
    else if opcode == OP_PUSHDATA1 then Length(data[pc], pc + 1)
    else
      var width := if opcode == OP_PUSHDATA2 then 2 else 4;
      if pc + width > |data| then NoLength else Length(Value(data[pc..pc + width]), pc + width)
  }

  function PopData(data: seq<byte>, pc: nat, opcode: byte): (r: Popped)
    ensures r.Popped? ==> pc <= r.pc && r.pc + |r.out| <= |data| && r.out == data[r.pc..r.pc + |r.out|]
  {
    match ReadLength(data, pc, opcode)
    case NoLength => Failed
    case Length(size, next) => if next + size > |data| then Failed else Popped(data[next..next + size], next)
  }

  /** Data are popped exactly behind an opcode from 1 to 78, when they are all there: as many bytes as the opcode says up
      to 75, else as many as the one, two or four bytes behind it say. */
  lemma PopIff(data: seq<byte>, pc: nat, opcode: byte, out: seq<byte>, next: nat)
    ensures PopData(data, pc, opcode) == Popped(out, next) <==>
            && pc < |data| && 1 <= opcode <= 78
            && next == pc + (if opcode <= 75 then 0 else if opcode == 76 then 1 else if opcode == 77 then 2 else 4)
            && next + |out| <= |data| && out == data[next..next + |out|]
            && |out| == (if opcode <= 75 then opcode else Value(data[pc..next]))
  {
    if pc < |data| { OneByte(data[pc..pc + 1]); }
  }

  lemma OneByte(bs: seq<byte>)
    requires |bs| == 1
    ensures Value(bs) == bs[0]
  {
    assert bs[1..] == [] && Value([]) == 0;
  }

  // Pops an opcode and its data again and again, moving on by the length of the data, until the script ends.
  function Recover(data: seq<byte>, pc: nat): (r: Recovered)
    requires pc <= |data|
    decreases |data| - pc
  {
    if pc == |data| then Recovered([])
    else
      match PopData(data, pc + 1, data[pc])
      case Failed => Stuck
      case Popped(out, next) =>
        match Recover(data, next + |out|)
        case Stuck => Stuck
        case Recovered(list) => Recovered([out] + list)
  }

  datatype Recovered = Stuck | Recovered(list: seq<seq<byte>>)

  class Script {
    var data: seq<byte>

    constructor ()
      ensures data == []
    {
      data := [];
    }

    method PushBytes(b: seq<byte>)
      modifies this
      ensures data == old(data) + Prefix(b) + b
    {
      ghost var start := data;
      if |b| < OP_PUSHDATA1 {
        data := data + [|b|];
      } else if |b| <= 0xff {
        data := data + [OP_PUSHDATA1];
        data := data + [|b|];
        assert data == start + [OP_PUSHDATA1, |b|];
      } else if |b| <= 0xffff {
        data := data + [OP_PUSHDATA2];
        var size := new byte[2];
        ToLittleEndian(|b|, size);
        data := data + [size[0]];
        data := data + [size[1]];
        assert data == start + ([OP_PUSHDATA2] + size[..]);
      } else {
        data := data + [OP_PUSHDATA4];
        var size := new byte[4];
        ToLittleEndian(|b|, size);
        for i := 0 to 4
          invariant data == start + [OP_PUSHDATA4] + size[..i] && size[..] == LittleEndian(|b|, 4)
        {
          data := data + [size[i]];
          assert size[..i + 1] == size[..i] + [size[i]];
        }
        assert data == start + ([OP_PUSHDATA4] + size[..]);
      }
      data := data + b;
    }

    method PopOpcode(pc: nat) returns (ok: bool, next: nat, out: byte)
      ensures ok <==> pc < |data|
      ensures if ok then out == data[pc] && next == pc + 1 else next == pc
    {
      if pc >= |data| {
        return false, pc, 0;
      }
      return true, pc + 1, data[pc];
    }

    method PopBytes(pc: nat, opcode: byte) returns (ok: bool, next: nat, out: seq<byte>)
      ensures ok <==> PopData(data, pc, opcode).Popped?
      ensures ok ==> PopData(data, pc, opcode) == Popped(out, next)
      ensures next == match ReadLength(data, pc, opcode) case NoLength => pc case Length(_, behind) => behind
    {
      ok, next, out := false, pc, [];
      if pc >= |data| {
        return;
      }
      if opcode == OP_0 || opcode > OP_PUSHDATA4 {
        return;
      }
      var size: nat;
      if opcode < OP_PUSHDATA1 {
        size := opcode;
      } else if opcode == OP_PUSHDATA1 {
        size := data[next];
        next := next + 1;
      } else if opcode == OP_PUSHDATA2 {
        if next + 2 > |data| {
          return;
        }
        size := FromLittleEndian(data[next..next + 2]);
        next := next + 2;
      } else {
        if next + 4 > |data| {
          return;
        }
        size := FromLittleEndian(data[next..next + 4]);
        next := next + 4;
      }
      assert ReadLength(data, pc, opcode) == Length(size, next);
      if next + size > |data| {
        return;
      }
      out := data[next..next + size];
      ok := true;
    }

    // Pushes a list of byte strings, one after the other.
    method PushList(bs: seq<seq<byte>>)
      modifies this
      ensures data == old(data) + PushAll(bs)
    {
      ghost var start := data;
      for k := 0 to |bs|
        invariant data + PushAll(bs[k..]) == start + PushAll(bs)
      {
        PushedFirst(data, bs[k..]);
        PushBytes(bs[k]);
        assert bs[k..][1..] == bs[k + 1..];
      }
      assert bs[|bs|..] == [];
    }
  }

  // ---------- what was pushed is popped ----------

  // Where the pieces of a pushed byte string are.
  lemma PushedPieces(before: seq<byte>, b: seq<byte>, after: seq<byte>)
    ensures var data, at := before + Prefix(b) + b + after, |before| + |Prefix(b)|;
            data[|before|] == Prefix(b)[0] && data[|before| + 1..at] == Prefix(b)[1..] && data[at..at + |b|] == b
  {
    var p, data := Prefix(b), before + Prefix(b) + b + after;
    assert data == (before + p) + (b + after);
    assert data[..|before| + |p|] == before + p;
    assert data[|before| + 1..|before| + |p|] == (before + p)[|before| + 1..];
  }

  // A byte string pushed after some others and before what follows.
  lemma PopPushed(before: seq<byte>, b: seq<byte>, after: seq<byte>)
    ensures var data := before + Prefix(b) + b + after;
            var r := PopData(data, |before| + 1, data[|before|]);
            0 < |b| < 0x1_0000_0000 <==> r == Popped(b, |before| + |Prefix(b)|)
  {
    PushedPieces(before, b, after);
    if |b| >= OP_PUSHDATA1 { LengthField(b); }
  }

  // The length field of a long byte string reads as its length, as far as it fits.
  lemma LengthField(b: seq<byte>)
    requires |b| >= OP_PUSHDATA1
    ensures Value(Prefix(b)[1..]) == |b| <==> |b| < 0x1_0000_0000
    ensures |b| >= 0x1_0000_0000 ==> Value(Prefix(b)[1..]) < 0x1_0000_0000
  {
    Widths();
    if |b| <= 0xff {
      assert Prefix(b)[1..] == [|b|] && Value([|b|]) == |b| + 256 * Value([]);
    } else if |b| <= 0xffff {
      ValueOfBytes(|b|, 2);
    } else {
      ValueBelow(LittleEndian(|b|, 4));
      if |b| < 0x1_0000_0000 { ValueOfBytes(|b|, 4); }
    }
  }

  // A byte string popped before the others.
  function Ahead(out: seq<byte>, r: Recovered): Recovered {
    match r
    case Stuck => Stuck
    case Recovered(list) => Recovered([out] + list)
  }

  lemma {:induction false} RecoverOne(data: seq<byte>, pc: nat, out: seq<byte>, end: nat)
    requires pc < |data| && |out| <= end <= |data| && PopData(data, pc + 1, data[pc]) == Popped(out, end - |out|)
    ensures Recover(data, pc) == Ahead(out, Recover(data, end))
  {
  }

  lemma AheadIff(bs: seq<seq<byte>>, r: Recovered)
    requires bs != []
    ensures Ahead(bs[0], r) == Recovered(bs) <==> r == Recovered(bs[1..])
  {
    if r.Recovered? {
      if [bs[0]] + r.list == bs { assert r.list == ([bs[0]] + r.list)[1..]; }
    }
  }

  lemma FirstRecovered(before: seq<byte>, b: seq<byte>, after: seq<byte>)
    requires 0 < |b| < 0x1_0000_0000
    ensures var more := before + Prefix(b) + b;
            Recover(more + after, |before|) == Ahead(b, Recover(more + after, |more|))
  {
    PopPushed(before, b, after);
    RecoverOne(before + Prefix(b) + b + after, |before|, b, |before + Prefix(b) + b|);
  }

  lemma EmptyStuck(before: seq<byte>, after: seq<byte>)
    ensures Recover(before + Prefix([]) + [] + after, |before|) == Stuck
  {
    assert (before + Prefix([]) + [] + after)[|before|] == OP_0;
  }

  lemma PushedFirst(before: seq<byte>, bs: seq<seq<byte>>)
    requires bs != []
    ensures before + PushAll(bs) == before + Prefix(bs[0]) + bs[0] + PushAll(bs[1..])
  {
    PiecesAssociate(before, Prefix(bs[0]), bs[0] + PushAll(bs[1..]));
    PiecesAssociate(before + Prefix(bs[0]), bs[0], PushAll(bs[1..]));
    PiecesAssociate(Prefix(bs[0]), bs[0], PushAll(bs[1..]));
  }

  // What is popped is always shorter than 2^32, since no length field is wider than four bytes.
  lemma PoppedIsShort(data: seq<byte>, pc: nat, opcode: byte)
    ensures var r := PopData(data, pc, opcode); r.Popped? ==> |r.out| < 0x1_0000_0000
  {
    Widths();
    if pc + 2 <= |data| { ValueBelow(data[pc..pc + 2]); }
    if pc + 4 <= |data| { ValueBelow(data[pc..pc + 4]); }
  }

  lemma LongNotRecovered(data: seq<byte>, pc: nat, bs: seq<seq<byte>>)
    requires pc < |data| && bs != [] && |bs[0]| >= 0x1_0000_0000
    ensures Recover(data, pc) != Recovered(bs)
  {
    PoppedIsShort(data, pc + 1, data[pc]);
  }

  // Every string has at least one byte and fewer than 2^32.
  predicate AllPoppable(bs: seq<seq<byte>>) { bs == [] || (0 < |bs[0]| < 0x1_0000_0000 && AllPoppable(bs[1..])) }

  /** Popping the opcode, popping the data and moving on by their length recovers a list of byte strings, in all four
      classes of length, exactly when none is empty and none has 2^32 bytes or more. */
  lemma {:induction false} ListRecovered(before: seq<byte>, bs: seq<seq<byte>>)
    ensures Recover(before + PushAll(bs), |before|) == Recovered(bs) <==> AllPoppable(bs)
    decreases |bs|
  {
    if bs == [] {
      assert before + PushAll(bs) == before;
    } else {
      PushedFirst(before, bs);
      if bs[0] == [] {
        EmptyStuck(before, PushAll(bs[1..]));
      } else if |bs[0]| >= 0x1_0000_0000 {
        LongNotRecovered(before + PushAll(bs), |before|, bs);
      } else {
        var more := before + Prefix(bs[0]) + bs[0];
        ListRecovered(more, bs[1..]);
        FirstRecovered(before, bs[0], PushAll(bs[1..]));
        AheadIff(bs, Recover(more + PushAll(bs[1..]), |more|));
      }
    }
  }

  // ---------- integers ----------

  // The bytes of a number, lowest first, without leading zeros.
  function Magnitude(n: nat): seq<byte> {
    if n == 0 then [] else [n % 256] + Magnitude(n / 256)
  }

  // A positive number, with a zero byte on top where its highest bit would read as a sign.
  function ScriptBytes(n: nat): seq<byte> {
    var m := Magnitude(n);
    if n > 0 && m != [] && m[|m| - 1] >= 0x80 then m + [0] else m
  }

  // BytesEncoding; above 2^63 - 1 the source shifts a negative number and does not end.
  method BytesEncoding(value: nat) returns (result: seq<byte>)
    requires value < 0x8000_0000_0000_0000
    ensures result == ScriptBytes(value)
    ensures if value == 0 then result == []
            else result != [] && Value(result) == value && result[|result| - 1] < 0x80 && IsMinimal(result)
  {
    if value == 0 {
      return [];
    }
    ScriptBytesValue(value);
    result := [];
    var abs := value;
    while abs != 0
      invariant result + Magnitude(abs) == Magnitude(value)
    {
      MoreBytes(result, abs);
      result := result + [And(abs, 0xff)];
      abs := Shr(abs, 8);
    }
    assert result == Magnitude(value);
    TopByte(value);
    HighBit(result[|result| - 1]);
    if And(result[|result| - 1], 0x80) != 0 {
      result := result + [0];
    }
  }

  lemma MoreBytes(result: seq<byte>, abs: nat)
    requires abs > 0
    ensures And(abs, 0xff) < 256 && result + [And(abs, 0xff)] + Magnitude(Shr(abs, 8)) == result + Magnitude(abs)
    ensures Shr(abs, 8) < abs
  {
    LowByte(abs);
    assert Magnitude(abs) == [abs % 256] + Magnitude(abs / 256);
  }

  lemma LowByte(n: nat)
    ensures And(n, 0xff) == n % 256 && Shr(n, 8) == n / 256
  {
    var k: nat :| k == 8; // not a literal: the powers of one would be unfolded
    assert Pow2(8) == 256;
    AndMask(n, k);
    ShrIsDiv(n, k);
  }

  lemma HighBit(b: byte)
    ensures And(b, 0x80) != 0 <==> b >= 0x80
    ensures And(b, 0x7f) == b % 128
  {
    var k: nat :| k == 7; // as above
    assert Pow2(7) == 128 && Shl(1, 7) == 128;
    AndMask(b, k);
    AndShifted(b, 1, k);
    ShrIsDiv(b, k);
    ShlIsMul(And(Shr(b, k), 1), k);
    assert And(b / 128, 1) == b / 128;
  }

  lemma {:induction false} TopByte(n: nat)
    requires n > 0
    ensures Value(Magnitude(n)) == n && Magnitude(n) != [] && Magnitude(n)[|Magnitude(n)| - 1] != 0
  {
    if n >= 256 {
      TopByte(n / 256);
    } else {
      assert Magnitude(n / 256) == [] && Value([]) == 0;
    }
    assert Magnitude(n)[1..] == Magnitude(n / 256);
  }

  lemma ScriptBytesValue(n: nat)
    requires n > 0
    ensures var v := ScriptBytes(n); Value(v) == n && v != [] && v[|v| - 1] < 0x80 && IsMinimal(v)
  {
    TopByte(n);
    var m := Magnitude(n);
    ValueAppend(m, 0);
    assert 0 * Pow256(|m|) == 0;
  }

  // The most significant byte is not zero but for its sign bit, unless the byte below needs it.
  predicate IsMinimal(v: seq<byte>) {
    v != [] && (v[|v| - 1] % 128 != 0 || (|v| >= 2 && v[|v| - 2] >= 0x80))
  }

  // A number by its last byte.
  lemma {:induction false} LastByte(v: seq<byte>)
    requires v != []
    ensures Value(v) == Value(v[..|v| - 1]) + v[|v| - 1] * Pow256(|v| - 1)
    ensures Value(v[..|v| - 1]) < Pow256(|v| - 1)
  {
    ValueAppend(v[..|v| - 1], v[|v| - 1]);
    ValueBelow(v[..|v| - 1]);
    assert v == v[..|v| - 1] + [v[|v| - 1]];
  }

  lemma SmallPowers()
    ensures Pow256(0) == 1 && Pow256(1) == 0x100 && Pow256(2) == 0x1_0000
    ensures Pow256(3) == 0x100_0000 && Pow256(4) == 0x1_0000_0000
  {
    Widths();
    Pow256Add(1, 2);
  }

  lemma LongIsLarge(k: nat, top: nat)
    requires k >= 4 && top > 0
    ensures top * Pow256(k) >= 0x1_0000_0000
  {
    SmallPowers();
    Pow256Add(4, k - 4);
    MulLe(1, Pow256(k - 4), 0x1_0000_0000);
    MulLe(1, top, Pow256(k));
  }

  // Four bytes hold exactly the numbers below 2^31.
  lemma ScriptBytesLength(n: nat)
    requires n > 0
    ensures |ScriptBytes(n)| <= 4 <==> n < 0x8000_0000
  {
    TopByte(n);
    var m := Magnitude(n);
    LastByte(m);
    if |m| > 4 {
      LongIsLarge(|m| - 1, m[|m| - 1]);
    } else if |m| == 4 {
      SmallPowers();
    } else {
      SmallPowers();
      ValueBelow(m);
    }
  }

  /** What decoding gives: a number, nothing for no bytes, or an exception. */
  datatype Number = Unset | Overflow | NotMinimal | Number(value: int)

  // Sign and magnitude: the top bit of the last byte is the sign.
  function SignMagnitude(v: seq<byte>): int
    requires v != []
  {
    if v[|v| - 1] >= 0x80 then -(Value(v) - 0x80 * Pow256(|v| - 1)) else Value(v)
  }

  // A fourth byte with its top bit set is shifted into the sign of a 32-bit int, and the number comes out 2^32 higher.
  function Decoded(v: seq<byte>, minimal: bool): Number {
    if v == [] then Unset
    else if |v| > 4 then Overflow
    else if minimal && !IsMinimal(v) then NotMinimal
    else Number(SignMagnitude(v) + if |v| == 4 && v[3] >= 0x80 then 0x1_0000_0000 else 0)
  }

  // ---------- minimal is shortest ----------

  // The number that any bytes mean, none meaning zero.
  function Meaning(v: seq<byte>): int {
    if v == [] then 0 else SignMagnitude(v)
  }

  // The lower bytes, and what the last one adds without its sign.
  lemma {:induction false} ByLastByte(v: seq<byte>)
    requires v != []
    ensures var size := Value(v[..|v| - 1]) + v[|v| - 1] % 128 * Pow256(|v| - 1);
            SignMagnitude(v) == if v[|v| - 1] >= 0x80 then -size else size
  {
    LastByte(v);
    TopBits(v[|v| - 1], Pow256(|v| - 1));
  }

  lemma TopBits(top: byte, p: nat)
    ensures top * p == top % 128 * p + if top >= 0x80 then 0x80 * p else 0
  {
    assert top == top % 128 + if top >= 0x80 then 0x80 else 0;
    Distribute(top % 128, p);
  }

  lemma Distribute(low: nat, p: nat)
    ensures (low + 0x80) * p == low * p + 0x80 * p
  {
  }

  // Fewer than 2^(8k - 1) numbers on either side have k bytes.
  lemma ShortIsSmall(v: seq<byte>)
    requires v != []
    ensures -0x80 * Pow256(|v| - 1) < Meaning(v) < 0x80 * Pow256(|v| - 1)
  {
    ByLastByte(v);
    LastByte(v);
    var low, p := v[|v| - 1] % 128, Pow256(|v| - 1);
    MulLe(low, 127, p);
  }

  lemma MinimalIsLarge(v: seq<byte>)
    requires IsMinimal(v)
    ensures |v| == 1 ==> Meaning(v) != 0
    ensures |v| > 1 ==> Meaning(v) >= 0x80 * Pow256(|v| - 2) || Meaning(v) <= -0x80 * Pow256(|v| - 2)
  {
    ByLastByte(v);
    var low, p := v[|v| - 1] % 128, Pow256(|v| - 1);
    if low != 0 {
      MulLe(1, low, p);
      if |v| > 1 { assert p == 256 * Pow256(|v| - 2); }
    } else {
      var u := v[..|v| - 1];
      LastByte(u);
      MulLe(0x80, u[|u| - 1], Pow256(|u| - 1));
    }
  }

  // A last byte without magnitude only moves the sign.
  lemma {:induction false} EmptyTop(u: seq<byte>, top: byte)
    requires top % 128 == 0
    ensures SignMagnitude(u + [top]) == if top >= 0x80 then 0 - Value(u) else Value(u)
  {
    ByLastByte(u + [top]);
    assert (u + [top])[..|u|] == u;
    assert 0 * Pow256(|u|) == 0;
  }

  lemma {:induction false} WithSign(u: seq<byte>) returns (w: seq<byte>)
    requires u != [] && u[|u| - 1] < 0x80
    ensures |w| == |u| && SignMagnitude(w) == 0 - Value(u) && SignMagnitude(u) == Value(u)
  {
    var n := |u| - 1;
    w := u[..n] + [u[n] + 0x80];
    ByLastByte(w);
    assert w[..n] == u[..n] && w[n] % 128 == u[n];
    LastByte(u);
  }

  // Bytes that are not minimal, without the last one, its sign moved down.
  lemma {:induction false} Shortened(v: seq<byte>) returns (w: seq<byte>)
    requires v != [] && !IsMinimal(v)
    ensures |w| == |v| - 1 && Meaning(w) == Meaning(v)
  {
    var u, top := v[..|v| - 1], v[|v| - 1];
    assert v == u + [top];
    w := WithoutTop(u, top);
  }

  lemma {:induction false} WithoutTop(u: seq<byte>, top: byte) returns (w: seq<byte>)
    requires top % 128 == 0 && (u == [] || u[|u| - 1] < 0x80)
    ensures |w| == |u| && Meaning(w) == SignMagnitude(u + [top])
  {
    EmptyTop(u, top);
    w := u;
    if u != [] {
      var negated := WithSign(u);
      if top >= 0x80 { w := negated; }
    }
  }

  /** What the strict decoder takes for minimal is minimal: no shorter bytes mean the same number, of either sign. */
  lemma {:induction false} MinimalIsShortest(v: seq<byte>)
    requires v != []
    ensures IsMinimal(v) <==> forall w: seq<byte> :: |w| < |v| ==> Meaning(w) != Meaning(v)
  {
    if IsMinimal(v) {
      MinimalIsLarge(v);
      forall w: seq<byte> | |w| < |v|
        ensures Meaning(w) != Meaning(v)
      {
        if w != [] {
          ShortIsSmall(w);
          PowersGrow(|w| - 1, |v| - 2);
        }
      }
    } else {
      var w := Shortened(v);
      assert Meaning(w) == Meaning(v);
    }
  }

  lemma {:induction false} PowersGrow(a: nat, b: nat)
    requires a <= b
    ensures Pow256(a) <= Pow256(b)
    decreases b
  {
    if a < b { PowersGrow(a, b - 1); }
  }

  /** Bytes that are not rejected decode to their sign and magnitude exactly unless there are four of them and the sign
      bit is set. */
  lemma DecodedIffSignMagnitude(v: seq<byte>, minimal: bool)
    requires 0 < |v| <= 4 && (minimal ==> IsMinimal(v))
    ensures Decoded(v, minimal) == Number(SignMagnitude(v)) <==> !(|v| == 4 && v[3] >= 0x80)
  {
  }

  // The bytes of -2^24, in sign and magnitude.
  lemma FourNegativeBytes()
    ensures SignMagnitude([0, 0, 0, 0x81]) == -0x100_0000
    ensures Decoded([0, 0, 0, 0x81], true) == Number(0xff00_0000)
  {
    SmallPowers();
    LastByte([0, 0, 0, 0x81]);
    assert [0, 0, 0, 0x81][..3] == [0, 0, 0];
    ZeroBytes();
  }

  lemma ZeroBytes()
    ensures Value([0, 0, 0]) == 0
  {
    assert Value([]) == 0;
    assert [0][1..] == [] && [0, 0][1..] == [0] && [0, 0, 0][1..] == [0, 0];
    assert Value([0]) == 0;
    assert Value([0, 0]) == 0;
  }

  // v[i] << 8 * i, an int of 32 bits, in the 64 bits of the value.
  function ShiftedByte(b: byte, i: nat): nat
    requires i < 4
  {
    Shl(if i == 3 && b >= 0x80 then b + 0x100_0000_0000 - 0x100 else b, 8 * i)
  }

  method Decode(v: seq<byte>, minimal: bool) returns (r: Number)
    ensures r == Decoded(v, minimal)
  {
    if |v| == 0 {
      return Unset;
    }
    if |v| > 4 {
      return Overflow;
    }
    var top := v[|v| - 1];
    HighBit(top);
    if minimal {
      if And(top, 0x7f) == 0 {
        if |v| >= 2 { HighBit(v[|v| - 2]); }
        if |v| < 2 || And(v[|v| - 2], 0x80) == 0 {
          return NotMinimal;
        }
      }
    }
    var value := OrBytes(v);
    if And(top, 0x80) != 0 {
      SignBit(v);
      value := ClearBit(value, 8 * |v| - 1);
      r := Number(-AsInt64(value));
    } else {
      r := Number(value);
    }
  }

  // An int64_t of these bits.
  function AsInt64(bits: nat): int
    requires bits < 0x1_0000_0000_0000_0000
  {
    if bits >= 0x8000_0000_0000_0000 then bits - 0x1_0000_0000_0000_0000 else bits
  }

  // The bits after all bytes are shifted in.
  function Collected(v: seq<byte>): nat {
    Value(v) + if |v| == 4 && v[3] >= 0x80 then 0x1_0000_0000_0000_0000 - 0x1_0000_0000 else 0
  }

  method OrBytes(v: seq<byte>) returns (value: nat)
    requires |v| <= 4
    ensures value == Collected(v)
  {
    value := 0;
    var i := 0;
    while i < |v|
      invariant 0 <= i <= |v| && value == Collected(v[..i])
    {
      OneMoreByte(v, i);
      value := Or(value, ShiftedByte(v[i], i));
      i := i + 1;
    }
    assert v[..i] == v;
  }

  lemma OneMoreByte(v: seq<byte>, i: nat)
    requires i < |v| <= 4
    ensures Or(Collected(v[..i]), ShiftedByte(v[i], i)) == Collected(v[..i + 1])
  {
    var byte: nat := v[i];
    var b := if i == 3 && byte >= 0x80 then byte + 0x100_0000_0000 - 0x100 else byte;
    assert v[..i + 1] == v[..i] + [v[i]];
    ValueAppend(v[..i], v[i]);
    ValueBelow(v[..i]);
    Pow256IsPow2(i);
    OrDisjoint(Value(v[..i]), b, 8 * i);
    ShlIsMul(b, 8 * i);
    Widths();
    Pow256Add(1, 2);
  }

  // Bit 7 above p is set in a number with nothing else between it and 256 * p.
  lemma TopBit(low: nat, top: nat, p: nat, e: nat)
    requires low < p && 0x80 <= top < 0x100
    ensures (low + top * p + e * (256 * p)) / (128 * p) == 2 * e + 1
  {
    var d := 128 * p;
    MulLe(top - 128, 127, p);
    MulLe(0, top - 128, p);
    assert (top - 128) * p == top * p - d;
    TwiceAndOne(e, d);
    DivUnique(low + top * p + e * (2 * d), d, 2 * e + 1, low + (top - 128) * p);
  }

  lemma TwiceAndOne(e: nat, d: nat)
    ensures (2 * e + 1) * d == e * (2 * d) + d
  {
  }

  // The sign bit is set, and clearing it subtracts it.
  lemma {:induction false} SignBit(v: seq<byte>)
    requires 0 < |v| <= 4 && v[|v| - 1] >= 0x80
    ensures ClearBit(Collected(v), 8 * |v| - 1) == Collected(v) - 0x80 * Pow256(|v| - 1)
    ensures Value(v) < Pow256(|v|) <= 0x1_0000_0000 && (|v| < 4 ==> Pow256(|v|) < 0x8000_0000)
    ensures 0x80 * Pow256(|v| - 1) <= Value(v)
  {
    var k, p := |v| - 1, Pow256(|v| - 1);
    LastByte(v);
    ValueBelow(v);
    SmallPowers();
    Pow256IsPow2(k);
    Pow2Add(7, 8 * k);
    assert Pow2(7) == 128;
    TopBit(Value(v[..k]), v[k], p, if |v| == 4 then 0xffff_ffff else 0);
    ClearBitSubtracts(Collected(v), 8 * |v| - 1);
    MulLe(0x80, v[k], p);
  }

  /** A positive number strictly decodes to itself exactly when it is below 2^31; a larger one is rejected as an
      overflow, never as not minimal. */
  lemma IntegerRoundTrip(n: nat)
    requires n > 0
    ensures Decoded(ScriptBytes(n), true) == if n < 0x8000_0000 then Number(n) else Overflow
  {
    ScriptBytesValue(n);
    ScriptBytesLength(n);
  }

  lemma {:induction false} MagnitudeOf(v: seq<byte>)
    requires v != [] && v[|v| - 1] != 0
    ensures Magnitude(Value(v)) == v && Value(v) > 0
  {
    assert Value(v) % 256 == v[0] && Value(v) / 256 == Value(v[1..]);
    if |v| == 1 {
      assert v[1..] == [] && v == [v[0]];
    } else {
      MagnitudeOf(v[1..]);
    }
  }

  /** The strict decoder reads a positive number, with its sign bit clear, from its own encoding and no other bytes. */
  lemma StrictIsCanonical(v: seq<byte>, n: nat)
    requires n > 0
    ensures (Decoded(v, true) == Number(n) && v[|v| - 1] < 0x80) <==> (v == ScriptBytes(n) && n < 0x8000_0000)
  {
    if Decoded(v, true) == Number(n) && v[|v| - 1] < 0x80 {
      if v[|v| - 1] == 0 {
        var m := v[..|v| - 1];
        assert v == m + [0];
        ValueAppend(m, 0);
        assert 0 * Pow256(|m|) == 0;
        MagnitudeOf(m);
      } else {
        MagnitudeOf(v);
      }
      ScriptBytesLength(n);
    } else if v == ScriptBytes(n) && n < 0x8000_0000 {
      ScriptBytesValue(n);
      IntegerRoundTrip(n);
    }
  }

  // ---------- pushing integers ----------

  const MINUS_ONE := 0xffff_ffff_ffff_ffff

  // -1 and the numbers from 1 to 16 have opcodes of their own.
  predicate HasOpcode(n: uint64) { n == MINUS_ONE || 1 <= n <= 16 }

  function NumberOpcode(n: uint64): byte
    requires HasOpcode(n)
  {
    if n == MINUS_ONE then OP_1 - 2 else n + OP_1 - 1
  }

  function PushedInt(n: uint64): seq<byte> {
    if HasOpcode(n) then [NumberOpcode(n)]
    else if n == 0 then [OP_0]
    else Prefix(ScriptBytes(n)) + ScriptBytes(n)
  }

  // The byte that push_back keeps of n + OP_1 - 1.
  lemma OpcodeByte(n: uint64)
    requires HasOpcode(n)
    ensures (n + OP_1 - 1) % 256 == NumberOpcode(n)
  {
  }

  method PushInt(script: Script, n: uint64)
    requires n < 0x8000_0000_0000_0000 || n == MINUS_ONE
    modifies script
    ensures script.data == old(script.data) + PushedInt(n)
    ensures n == 0xffff_ffff_ffff_ffff ==> script.data == old(script.data) + [0x4f]
    ensures n <= 16 ==> script.data == old(script.data) + [if n == 0 then 0x00 else 0x50 + n]
  {
    if n == MINUS_ONE || (n >= 1 && n <= 16) {
      OpcodeByte(n);
      script.data := script.data + [(n + OP_1 - 1) % 256];
    } else if n == 0 {
      script.data := script.data + [OP_0];
    } else {
      PushLarge(script, n);
    }
  }

  // The branch for numbers without an opcode.
  method PushLarge(script: Script, n: uint64)
    requires 0 < n < 0x8000_0000_0000_0000
    modifies script
    ensures script.data == old(script.data) + (Prefix(ScriptBytes(n)) + ScriptBytes(n))
  {
    ghost var start := script.data;
    var b := BytesEncoding(n);
    script.PushBytes(b);
    PiecesAssociate(start, Prefix(b), b);
  }

  lemma {:induction false} MagnitudeLength(n: nat, k: nat)
    requires n < Pow256(k)
    ensures |Magnitude(n)| <= k
  {
    if n > 0 { MagnitudeLength(n / 256, k - 1); }
  }

  /** An integer from 17 up to 2^31 - 1 that was pushed is popped as bytes that strictly decode to it again. */
  lemma IntegerPopped(before: seq<byte>, n: uint64, after: seq<byte>)
    requires n > 16 && n < 0x8000_0000
    ensures var data := before + PushedInt(n) + after;
            var r := PopData(data, |before| + 1, data[|before|]);
            r.Popped? && Decoded(r.out, true) == Number(n)
  {
    EncodedIsShort(n);
    PushedPlace(before, n, after);
    PopPushed(before, ScriptBytes(n), after);
    IntegerRoundTrip(n);
  }

  lemma EncodedIsShort(n: nat)
    requires 0 < n < 0x8000_0000
    ensures 0 < |ScriptBytes(n)| < 0x1_0000_0000
  {
    Widths();
    MagnitudeLength(n, 4);
    ScriptBytesValue(n);
  }

  lemma PushedPlace(before: seq<byte>, n: uint64, after: seq<byte>)
    requires n > 16 && n < 0x8000_0000
    ensures before + PushedInt(n) + after == before + Prefix(ScriptBytes(n)) + ScriptBytes(n) + after
  {
    PiecesAssociate(before, Prefix(ScriptBytes(n)), ScriptBytes(n));
  }

  lemma PiecesAssociate(a: seq<byte>, b: seq<byte>, c: seq<byte>)
    ensures a + (b + c) == a + b + c
  {
  }
}

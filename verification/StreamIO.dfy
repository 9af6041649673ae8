/** The stream writers and readers, each proved against the encoding it implements. */
module StreamIO {
  import opened Bits
  import opened Bytes
  import opened Endian
  import opened Serialization
  import opened BlockHeaders
  import opened Transactions

  // ---------- writing ----------

  method WriteInt(sink: ByteSink, n: nat, width: nat)
    modifies sink
    ensures sink.data == old(sink.data) + LittleEndian(n, width)
  {
    var data := new byte[width];
    ToLittleEndian(n, data);
    sink.Write(data[..]);
  }

  method WriteByte(sink: ByteSink, b: byte)
    modifies sink
    ensures sink.data == old(sink.data) + [b]
  {
    WriteInt(sink, b, 1);
    assert LittleEndian(b, 1) == [b];
  }

  method WriteVarInt(sink: ByteSink, count: uint64)
    modifies sink
    ensures sink.data == old(sink.data) + EncodeVarInt(count)
  {
    ghost var start := sink.data;
    if count < VARINT_16BITS {
      WriteByte(sink, count);
    } else if count <= 0xffff {
      WriteByte(sink, VARINT_16BITS);
      WriteInt(sink, count, 2);
      Split(start, [VARINT_16BITS], LittleEndian(count, 2));
    } else if count <= 0xffff_ffff {
      WriteByte(sink, VARINT_32BITS);
      WriteInt(sink, count, 4);
      Split(start, [VARINT_32BITS], LittleEndian(count, 4));
    } else {
      WriteByte(sink, VARINT_64BITS);
      WriteInt(sink, count, 8);
      Split(start, [VARINT_64BITS], LittleEndian(count, 8));
    }
  }

  method WriteByteVector(sink: ByteSink, v: ByteVector)
    modifies sink
    ensures sink.data == old(sink.data) + EncodeByteVector(v)
  {
    WriteVarInt(sink, |v|);
    if |v| > 0 {
      sink.Write(v);
    }
  }

  method WriteTxIn(sink: ByteSink, i: TxIn)
    modifies sink
    ensures sink.data == old(sink.data) + EncodeTxIn(i)
  {
    sink.Write(i.prevout.prevHash);
    WriteInt(sink, i.prevout.index, 4);
    WriteByteVector(sink, i.scriptSig);
    WriteInt(sink, i.sequence, 4);
    FourPieces(old(sink.data), i.prevout.prevHash, LittleEndian(i.prevout.index, 4),
               EncodeByteVector(i.scriptSig), LittleEndian(i.sequence, 4));
    Split(i.prevout.prevHash, LittleEndian(i.prevout.index, 4),
          EncodeByteVector(i.scriptSig) + LittleEndian(i.sequence, 4));
  }

  method WriteTxOut(sink: ByteSink, o: TxOut)
    modifies sink
    ensures sink.data == old(sink.data) + EncodeTxOut(o)
  {
    WriteInt(sink, o.value, 8);
    WriteByteVector(sink, o.scriptPubKey);
  }

  lemma OneMore<T>(start: seq<byte>, v: seq<T>, k: nat, encode: T -> seq<byte>)
    requires k < |v|
    ensures start + EncodeAll(v[..k], encode) + encode(v[k]) == start + EncodeAll(v[..k + 1], encode)
  {
    EncodeAllAppend(v[..k], v[k], encode);
    assert v[..k + 1] == v[..k] + [v[k]];
    Split(start, EncodeAll(v[..k], encode), encode(v[k]));
  }

  /** The vector writer, for elements with a given encoding. */
  method WriteVector<T>(sink: ByteSink, v: seq<T>, encode: T -> seq<byte>)
    requires |v| < 0x1_0000_0000_0000_0000
    modifies sink
    ensures sink.data == old(sink.data) + EncodeVector(v, encode)
  {
    WriteVarInt(sink, |v|);
    ghost var start := sink.data;
    for k := 0 to |v|
      invariant sink.data == start + EncodeAll(v[..k], encode)
    {
      sink.Write(encode(v[k]));
      OneMore(start, v, k, encode);
    }
    assert v[..|v|] == v;
    Split(old(sink.data), EncodeVarInt(|v|), EncodeAll(v, encode));
  }

  // Four pieces written one after the other.
  lemma FourPieces(d: seq<byte>, a: seq<byte>, b: seq<byte>, c: seq<byte>, e: seq<byte>)
    ensures d + a + b + c + e == d + (a + (b + (c + e)))
  {
  }

  method WriteTransaction(sink: ByteSink, t: Transaction)
    modifies sink
    ensures sink.data == old(sink.data) + EncodeTransaction(t)
    ensures |sink.data| == |old(sink.data)| + TransactionSize(t)
  {
    WriteInt(sink, t.version, 4);
    WriteVector(sink, t.inputs, EncodeTxIn);
    WriteVector(sink, t.outputs, EncodeTxOut);
    WriteInt(sink, t.lockTime, 4);
    FourPieces(old(sink.data), LittleEndian(t.version, 4), EncodeVector(t.inputs, EncodeTxIn),
               EncodeVector(t.outputs, EncodeTxOut), LittleEndian(t.lockTime, 4));
    TransactionSizeExact(t);
  }

  // Six pieces written one after the other.
  lemma SixPieces(d: seq<byte>, a: seq<byte>, b: seq<byte>, c: seq<byte>,
                  e: seq<byte>, f: seq<byte>, g: seq<byte>)
    ensures d + a + b + c + e + f + g == d + (a + (b + (c + (e + (f + g)))))
  {
    Split(d + a + b + c + e, f, g);
    FourPieces(d, a, b, c, e + (f + g));
    Split(d + a + b + c, e, f + g);
  }

  method WriteHeader(sink: ByteSink, h: BlockHeader)
    modifies sink
    ensures sink.data == old(sink.data) + EncodeHeader(h)
  {
    WriteInt(sink, Unsigned(h.version), 4);
    sink.Write(h.prevBlockHash);
    sink.Write(h.merkleRootHash);
    WriteInt(sink, h.time, 4);
    WriteInt(sink, h.bits, 4);
    WriteInt(sink, h.nonce, 4);
    SixPieces(old(sink.data), LittleEndian(Unsigned(h.version), 4), h.prevBlockHash, h.merkleRootHash,
              LittleEndian(h.time, 4), LittleEndian(h.bits, 4), LittleEndian(h.nonce, 4));
  }

  method WriteBlock(sink: ByteSink, b: Block)
    modifies sink
    ensures sink.data == old(sink.data) + EncodeBlock(b)
  {
    WriteHeader(sink, b.header);
    WriteVector(sink, b.transactions, EncodeTransaction);
    Split(old(sink.data), EncodeHeader(b.header), EncodeVector(b.transactions, EncodeTransaction));
  }

  // ---------- reading ----------

  /** A value, an exception of the reader, or an input that ended early. */
  datatype Outcome<+T> = Got(value: T) | Thrown | Short {
    predicate IsFailure() { !Got? }

    function PropagateFailure<U>(): Outcome<U>
      requires IsFailure()
    {
      if Thrown? then Thrown else Short
    }

    function Extract(): T
      requires !IsFailure()
    {
      value
    }
  }

  // A reader did what parsing the bytes before it gives.
  ghost predicate Agrees<T>(r: Outcome<T>, p: Parsed<T>, source: ByteSource)
    reads source
  {
    source.position <= |source.container| &&
    match p
    case Parsed(v, rest) => r == Got(v) && source.Rest() == rest
    case Malformed => r.Thrown?
    case Truncated => r.Short?
  }

  method ReadInt(source: ByteSource, width: nat) returns (r: Outcome<nat>)
    requires source.position <= |source.container|
    modifies source
    ensures Agrees(r, ParseInt(width, old(source.Rest())), source)
  {
    var data, _ := source.Read(width);
    if |data| < width {
      return Short;
    }
    var n := FromLittleEndian(data);
    return Got(n);
  }

  method ReadVarInt(source: ByteSource) returns (r: Outcome<nat>)
    requires source.position <= |source.container|
    modifies source
    ensures Agrees(r, ParseVarInt(old(source.Rest())), source)
  {
    IntRange(1, source.Rest());
    var count :- ReadInt(source, 1);
    var varint: nat;
    if count < VARINT_16BITS {
      varint := count;
    } else if count == VARINT_16BITS {
      varint :- ReadInt(source, 2);
      if varint < VARINT_16BITS {
        return Thrown;
      }
    } else if count == VARINT_32BITS {
      varint :- ReadInt(source, 4);
      if varint <= 0xffff {
        return Thrown;
      }
    } else {
      varint :- ReadInt(source, 8);
      if varint <= 0xffff_ffff {
        return Thrown;
      }
    }
    if varint > MAX_VARDATA_SIZE {
      return Thrown;
    }
    return Got(varint);
  }

  lemma IntRange(k: nat, bs: seq<byte>)
    ensures ParseInt(k, bs).Parsed? ==> ParseInt(k, bs).value < Pow256(k)
    ensures Pow256(1) == 256
  {
    Widths();
    if ParseInt(k, bs).Parsed? { IntCanonical(k, bs); }
  }

  // Reads a given number of bytes one by one.
  method ReadBytes(source: ByteSource, count: nat) returns (r: Outcome<seq<byte>>)
    requires source.position <= |source.container|
    modifies source
    ensures Agrees(r, ParseBytes(count, old(source.Rest())), source)
  {
    var out: seq<byte> := [];
    ghost var start := source.Rest();
    for k := 0 to count
      invariant source.position <= |source.container|
      invariant k <= |start| && out == start[..k] && source.Rest() == start[k..]
    {
      IntRange(1, source.Rest());
      var b :- ReadInt(source, 1);
      assert Value(start[k..][..1]) == start[k];
      out := out + [b];
    }
    return Got(out);
  }

  method ReadByteVector(source: ByteSource) returns (r: Outcome<seq<byte>>)
    requires source.position <= |source.container|
    modifies source
    ensures Agrees(r, ParseByteVector(old(source.Rest())), source)
  {
    var count :- ReadVarInt(source);
    r := ReadBytes(source, count);
  }

  method ReadWord(source: ByteSource) returns (r: Outcome<uint32>)
    requires source.position <= |source.container|
    modifies source
    ensures Agrees(r, ParseWord(old(source.Rest())), source)
  {
    IntRange(4, source.Rest());
    Widths();
    var n :- ReadInt(source, 4);
    return Got(n);
  }

  method ReadLong(source: ByteSource) returns (r: Outcome<uint64>)
    requires source.position <= |source.container|
    modifies source
    ensures Agrees(r, ParseLong(old(source.Rest())), source)
  {
    IntRange(8, source.Rest());
    Widths();
    var n :- ReadInt(source, 8);
    return Got(n);
  }

  method ReadHash(source: ByteSource) returns (r: Outcome<Hash256>)
    requires source.position <= |source.container|
    modifies source
    ensures Agrees(r, ParseHash(old(source.Rest())), source)
  {
    var h :- ReadBytes(source, 32);
    return Got(h);
  }

  method ReadTxIn(source: ByteSource) returns (r: Outcome<TxIn>)
    requires source.position <= |source.container|
    modifies source
    ensures Agrees(r, ParseTxIn(old(source.Rest())), source)
  {
    var hash :- ReadHash(source);
    var index :- ReadWord(source);
    var script :- ReadByteVector(source);
    var sequence :- ReadWord(source);
    return Got(TxIn(OutPoint(hash, index), script, sequence));
  }

  method ReadTxOut(source: ByteSource) returns (r: Outcome<TxOut>)
    requires source.position <= |source.container|
    modifies source
    ensures Agrees(r, ParseTxOut(old(source.Rest())), source)
  {
    var value :- ReadLong(source);
    var script :- ReadByteVector(source);
    return Got(TxOut(value, script));
  }

  // The values read so far in front of those still to come.
  function Prepend<T>(xs: seq<T>, p: Parsed<seq<T>>): Parsed<seq<T>> {
    match p
    case Parsed(ys, rest) => Parsed(xs + ys, rest)
    case Malformed => Malformed
    case Truncated => Truncated
  }

  lemma PrependMore<T>(xs: seq<T>, n: nat, parse: seq<byte> -> Parsed<T>, bs: seq<byte>)
    requires n > 0
    ensures Prepend(xs, ParseAll(n, parse, bs)) ==
            match parse(bs)
            case Parsed(x, rest) => Prepend(xs + [x], ParseAll(n - 1, parse, rest))
            case Malformed => Malformed
            case Truncated => Truncated
  {
    if parse(bs).Parsed? && ParseAll(n - 1, parse, parse(bs).rest).Parsed? {
      var x, ys := parse(bs).value, ParseAll(n - 1, parse, parse(bs).rest).value;
      assert xs + ([x] + ys) == xs + [x] + ys;
    }
  }

  lemma PrependNone<T>(p: Parsed<seq<T>>)
    ensures Prepend([], p) == p
  {
    if p.Parsed? { assert [] + p.value == p.value; }
  }

  // One element, read by its own reader.
  method ReadElement<T(!new)>(source: ByteSource, parse: seq<byte> -> Parsed<T>, ghost encode: T -> seq<byte>,
                              ghost fits: T -> bool)
    returns (r: Outcome<T>)
    requires source.position <= |source.container| && IsCanonical(encode, parse, fits)
    modifies source
    ensures Agrees(r, parse(old(source.Rest())), source)
  {
    match parse(source.Rest()) {
      case Parsed(v, rest) =>
        assert source.Rest() == encode(v) + rest;
        source.position := |source.container| - |rest|;
        r := Got(v);
      case Malformed => r := Thrown;
      case Truncated => r := Short;
    }
  }

  /** The vector reader, for elements with a given reader: the elements after a size that has been read. */
  method ReadAll<T(!new)>(source: ByteSource, count: nat, parse: seq<byte> -> Parsed<T>, ghost encode: T -> seq<byte>,
                          ghost fits: T -> bool)
    returns (r: Outcome<seq<T>>)
    requires source.position <= |source.container| && IsCanonical(encode, parse, fits)
    modifies source
    ensures Agrees(r, ParseAll(count, parse, old(source.Rest())), source)
  {
    var out: seq<T> := [];
    ghost var all := ParseAll(count, parse, source.Rest());
    PrependNone(all);
    for k := 0 to count
      invariant source.position <= |source.container|
      invariant all == Prepend(out, ParseAll(count - k, parse, source.Rest()))
    {
      PrependMore(out, count - k, parse, source.Rest());
      var x :- ReadElement(source, parse, encode, fits);
      out := out + [x];
    }
    assert out + [] == out;
    return Got(out);
  }

  method ReadTransaction(source: ByteSource) returns (r: Outcome<Transaction>)
    requires source.position <= |source.container|
    modifies source
    ensures Agrees(r, ParseTransaction(old(source.Rest())), source)
  {
    VectorsCanonical();
    var version :- ReadWord(source);
    var insCount :- ReadVarInt(source);
    var inputs :- ReadAll(source, insCount, ParseTxIn, EncodeTxIn, FitsTxIn);
    var outsCount :- ReadVarInt(source);
    var outputs :- ReadAll(source, outsCount, ParseTxOut, EncodeTxOut, FitsTxOut);
    var lockTime :- ReadWord(source);
    return Got(Transaction(version, inputs, outputs, lockTime));
  }

  method ReadHeader(source: ByteSource) returns (r: Outcome<BlockHeader>)
    requires source.position <= |source.container|
    modifies source
    ensures Agrees(r, ParseHeader(old(source.Rest())), source)
  {
    var version :- ReadWord(source);
    var prev :- ReadHash(source);
    var merkle :- ReadHash(source);
    var time :- ReadWord(source);
    var bits :- ReadWord(source);
    var nonce :- ReadWord(source);
    return Got(BlockHeader(Signed(version), prev, merkle, time, bits, nonce));
  }

  method ReadBlock(source: ByteSource) returns (r: Outcome<Block>)
    requires source.position <= |source.container|
    modifies source
    ensures Agrees(r, ParseBlock(old(source.Rest())), source)
  {
    var header :- ReadHeader(source);
    var count :- ReadVarInt(source);
    TransactionsCanonical();
    var transactions :- ReadAll(source, count, ParseTransaction, EncodeTransaction, FitsTransaction);
    return Got(Block(header, transactions));
  }
}

/** Transactions and blocks on the wire. */
module Transactions {
  import opened Bytes
  import opened Endian
  import opened Serialization
  import opened BlockHeaders

  datatype OutPoint = OutPoint(prevHash: Hash256, index: uint32)
  datatype TxIn = TxIn(prevout: OutPoint, scriptSig: ByteVector, sequence: uint32)
  datatype TxOut = TxOut(value: uint64, scriptPubKey: ByteVector)
  type TxIns = v: seq<TxIn> | |v| < 0x1_0000_0000_0000_0000
  type TxOuts = v: seq<TxOut> | |v| < 0x1_0000_0000_0000_0000
  datatype Transaction = Transaction(version: uint32, inputs: TxIns, outputs: TxOuts, lockTime: uint32)
  type Txs = v: seq<Transaction> | |v| < 0x1_0000_0000_0000_0000
  datatype Block = Block(header: BlockHeader, transactions: Txs)

  // ---------- what is written ----------

  function EncodeOutPoint(o: OutPoint): seq<byte> {
    o.prevHash + LittleEndian(o.index, 4)
  }

  function EncodeTxIn(i: TxIn): seq<byte> {
    EncodeOutPoint(i.prevout) + (EncodeByteVector(i.scriptSig) + LittleEndian(i.sequence, 4))
  }

  function EncodeTxOut(o: TxOut): seq<byte> {
    LittleEndian(o.value, 8) + EncodeByteVector(o.scriptPubKey)
  }

  function EncodeTransaction(t: Transaction): seq<byte> {
    LittleEndian(t.version, 4) +
    (EncodeVector(t.inputs, EncodeTxIn) + (EncodeVector(t.outputs, EncodeTxOut) + LittleEndian(t.lockTime, 4)))
  }

  function EncodeHeader(h: BlockHeader): seq<byte> {
    LittleEndian(Unsigned(h.version), 4) +
    (h.prevBlockHash + (h.merkleRootHash +
     (LittleEndian(h.time, 4) + (LittleEndian(h.bits, 4) + LittleEndian(h.nonce, 4)))))
  }

  function EncodeBlock(b: Block): seq<byte> {
    EncodeHeader(b.header) + EncodeVector(b.transactions, EncodeTransaction)
  }

  // ---------- what is read ----------

  function ParseWord(bs: seq<byte>): Parsed<uint32> {
    var (n, rest) :- ParseInt(4, bs);
    Widths();
    IntCanonical(4, bs);
    Parsed(n, rest)
  }

  function ParseLong(bs: seq<byte>): Parsed<uint64> {
    var (n, rest) :- ParseInt(8, bs);
    Widths();
    IntCanonical(8, bs);
    Parsed(n, rest)
  }

  function ParseHash(bs: seq<byte>): Parsed<Hash256> {
    var (h, rest) :- ParseBytes(32, bs);
    Parsed(h, rest)
  }

  function ParseScript(bs: seq<byte>): Parsed<ByteVector> {
    var (v, rest) :- ParseByteVector(bs);
    Parsed(v, rest)
  }

  function ParseOutPoint(bs: seq<byte>): Parsed<OutPoint> {
    var (hash, rest) :- ParseHash(bs);
    var (index, rest) :- ParseWord(rest);
    Parsed(OutPoint(hash, index), rest)
  }

  function ParseTxIn(bs: seq<byte>): Parsed<TxIn> {
    var (prevout, rest) :- ParseOutPoint(bs);
    var (script, rest) :- ParseScript(rest);
    var (sequence, rest) :- ParseWord(rest);
    Parsed(TxIn(prevout, script, sequence), rest)
  }

  function ParseTxOut(bs: seq<byte>): Parsed<TxOut> {
    var (value, rest) :- ParseLong(bs);
    var (script, rest) :- ParseScript(rest);
    Parsed(TxOut(value, script), rest)
  }

  function ParseTransaction(bs: seq<byte>): Parsed<Transaction> {
    var (version, rest) :- ParseWord(bs);
    var (inputs, rest) :- ParseVector(ParseTxIn, rest);
    var (outputs, rest) :- ParseVector(ParseTxOut, rest);
    var (lockTime, rest) :- ParseWord(rest);
    Parsed(Transaction(version, inputs, outputs, lockTime), rest)
  }

  function ParseHeader(bs: seq<byte>): Parsed<BlockHeader> {
    var (version, rest) :- ParseWord(bs);
    var (prev, rest) :- ParseHash(rest);
    var (merkle, rest) :- ParseHash(rest);
    var (time, rest) :- ParseWord(rest);
    var (bits, rest) :- ParseWord(rest);
    var (nonce, rest) :- ParseWord(rest);
    Parsed(BlockHeader(Signed(version), prev, merkle, time, bits, nonce), rest)
  }

  function ParseBlock(bs: seq<byte>): Parsed<Block> {
    var (header, rest) :- ParseHeader(bs);
    var (txs, rest) :- ParseVector(ParseTransaction, rest);
    Parsed(Block(header, txs), rest)
  }

  // ---------- the layout ----------

  /** An output: eight bytes of value, then the script behind its size. */
  lemma TxOutLayout(o: TxOut)
    ensures var e := EncodeTxOut(o);
            |e| >= 8 && e[..8] == LittleEndian(o.value, 8) && e[8..] == EncodeVarInt(|o.scriptPubKey|) + o.scriptPubKey
  {
  }

  /** An input: the hash and the index of what it spends, the script behind its size, the sequence number. */
  lemma TxInLayout(i: TxIn)
    ensures var e := EncodeTxIn(i);
            && |e| >= 40 && e[..32] == i.prevout.prevHash && e[32..36] == LittleEndian(i.prevout.index, 4)
            && e[36..|e| - 4] == EncodeVarInt(|i.scriptSig|) + i.scriptSig
            && e[|e| - 4..] == LittleEndian(i.sequence, 4)
  {
    var script := EncodeByteVector(i.scriptSig);
    assert EncodeTxIn(i)[36..] == script + LittleEndian(i.sequence, 4);
  }

  lemma FourSlices(a: seq<byte>, b: seq<byte>, c: seq<byte>, d: seq<byte>)
    ensures var e := a + (b + (c + d));
            && |e| == |a| + |b| + |c| + |d| && e[..|a|] == a && e[|a|..|a| + |b|] == b
            && e[|a| + |b|..|e| - |d|] == c && e[|e| - |d|..] == d
  {
  }

  /** A transaction: version, inputs behind their number, outputs behind theirs, lock time. */
  lemma TransactionLayout(t: Transaction)
    ensures var e := EncodeTransaction(t);
            var ins, outs := EncodeVector(t.inputs, EncodeTxIn), EncodeVector(t.outputs, EncodeTxOut);
            && |e| == 8 + |ins| + |outs| && e[..4] == LittleEndian(t.version, 4)
            && e[4..4 + |ins|] == ins && e[4 + |ins|..|e| - 4] == outs
            && e[|e| - 4..] == LittleEndian(t.lockTime, 4)
  {
    FourSlices(LittleEndian(t.version, 4), EncodeVector(t.inputs, EncodeTxIn), EncodeVector(t.outputs, EncodeTxOut),
               LittleEndian(t.lockTime, 4));
  }

  /** A block header: eighty bytes, the version in two's complement. */
  lemma HeaderLayout(h: BlockHeader)
    ensures var e := EncodeHeader(h);
            && |e| == 80 && e[..4] == LittleEndian(h.version % 0x1_0000_0000, 4)
            && e[4..36] == h.prevBlockHash && e[36..68] == h.merkleRootHash && e[68..72] == LittleEndian(h.time, 4)
            && e[72..76] == LittleEndian(h.bits, 4) && e[76..] == LittleEndian(h.nonce, 4)
  {
    assert Unsigned(h.version) == h.version % 0x1_0000_0000;
  }

  /** A block: its header, then the transactions behind their number. */
  lemma BlockLayout(b: Block)
    ensures var e := EncodeBlock(b);
            && |e| >= 80 && e[..80] == EncodeHeader(b.header)
            && e[80..] == EncodeVector(b.transactions, EncodeTransaction)
  {
    HeaderLayout(b.header);
  }

  // ---------- the size limits ----------

  predicate FitsTxIn(i: TxIn) { |i.scriptSig| <= MAX_VARDATA_SIZE }

  predicate FitsTxOut(o: TxOut) { |o.scriptPubKey| <= MAX_VARDATA_SIZE }

  predicate FitsTransaction(t: Transaction) {
    |t.inputs| <= MAX_VARDATA_SIZE && |t.outputs| <= MAX_VARDATA_SIZE &&
    (forall i <- t.inputs :: FitsTxIn(i)) && (forall o <- t.outputs :: FitsTxOut(o))
  }

  predicate FitsBlock(b: Block) {
    |b.transactions| <= MAX_VARDATA_SIZE && forall t <- b.transactions :: FitsTransaction(t)
  }

  // ---------- reading inverts writing ----------

  // A piece in front of what follows.
  lemma Split(a: seq<byte>, b: seq<byte>, rest: seq<byte>)
    ensures a + b + rest == a + (b + rest)
  {
  }

  lemma WordRoundTrip(n: uint32, rest: seq<byte>)
    ensures ParseWord(LittleEndian(n, 4) + rest) == Parsed(n, rest)
  {
    Widths();
    IntRoundTrip(n, 4, rest);
  }

  lemma LongRoundTrip(n: uint64, rest: seq<byte>)
    ensures ParseLong(LittleEndian(n, 8) + rest) == Parsed(n, rest)
  {
    Widths();
    IntRoundTrip(n, 8, rest);
  }

  lemma HashRoundTrip(h: Hash256, rest: seq<byte>)
    ensures ParseHash(h + rest) == Parsed(h, rest)
  {
    assert (h + rest)[..32] == h && (h + rest)[32..] == rest;
  }

  lemma OutPointRoundTrip(o: OutPoint, rest: seq<byte>)
    ensures ParseOutPoint(EncodeOutPoint(o) + rest) == Parsed(o, rest)
  {
    Split(o.prevHash, LittleEndian(o.index, 4), rest);
    HashRoundTrip(o.prevHash, LittleEndian(o.index, 4) + rest);
    WordRoundTrip(o.index, rest);
  }

  lemma TxInRoundTrip(i: TxIn, rest: seq<byte>)
    requires FitsTxIn(i)
    ensures ParseTxIn(EncodeTxIn(i) + rest) == Parsed(i, rest)
  {
    var script, sequence := EncodeByteVector(i.scriptSig), LittleEndian(i.sequence, 4);
    Split(EncodeOutPoint(i.prevout), script + sequence, rest);
    Split(script, sequence, rest);
    OutPointRoundTrip(i.prevout, script + (sequence + rest));
    ByteVectorRoundTrip(i.scriptSig, sequence + rest);
    WordRoundTrip(i.sequence, rest);
  }

  lemma TxOutRoundTrip(o: TxOut, rest: seq<byte>)
    requires FitsTxOut(o)
    ensures ParseTxOut(EncodeTxOut(o) + rest) == Parsed(o, rest)
  {
    var script := EncodeByteVector(o.scriptPubKey);
    Split(LittleEndian(o.value, 8), script, rest);
    LongRoundTrip(o.value, script + rest);
    ByteVectorRoundTrip(o.scriptPubKey, rest);
  }

  lemma VectorsRoundTrip()
    ensures RoundTrips(EncodeTxIn, ParseTxIn, FitsTxIn) && RoundTrips(EncodeTxOut, ParseTxOut, FitsTxOut)
  {
    forall i: TxIn, rest: seq<byte> {:trigger ParseTxIn(EncodeTxIn(i) + rest)} | FitsTxIn(i)
      ensures ParseTxIn(EncodeTxIn(i) + rest) == Parsed(i, rest)
    {
      TxInRoundTrip(i, rest);
    }
    forall o: TxOut, rest: seq<byte> {:trigger ParseTxOut(EncodeTxOut(o) + rest)} | FitsTxOut(o)
      ensures ParseTxOut(EncodeTxOut(o) + rest) == Parsed(o, rest)
    {
      TxOutRoundTrip(o, rest);
    }
  }

  /** A transaction within the limits is read back as it was written, and the following bytes are left alone. */
  lemma TransactionRoundTrip(t: Transaction, rest: seq<byte>)
    requires FitsTransaction(t)
    ensures ParseTransaction(EncodeTransaction(t) + rest) == Parsed(t, rest)
  {
    var ins, outs := EncodeVector(t.inputs, EncodeTxIn), EncodeVector(t.outputs, EncodeTxOut);
    var lock := LittleEndian(t.lockTime, 4);
    Split(LittleEndian(t.version, 4), ins + (outs + lock), rest);
    Split(ins, outs + lock, rest);
    Split(outs, lock, rest);
    WordRoundTrip(t.version, ins + (outs + (lock + rest)));
    VectorsRoundTrip();
    VectorRoundTrip(t.inputs, outs + (lock + rest), EncodeTxIn, ParseTxIn, FitsTxIn);
    VectorRoundTrip(t.outputs, lock + rest, EncodeTxOut, ParseTxOut, FitsTxOut);
    WordRoundTrip(t.lockTime, rest);
  }

  lemma HeaderRoundTrip(h: BlockHeader, rest: seq<byte>)
    ensures ParseHeader(EncodeHeader(h) + rest) == Parsed(h, rest)
  {
    var nonce := LittleEndian(h.nonce, 4);
    var bits := LittleEndian(h.bits, 4) + nonce;
    var time := LittleEndian(h.time, 4) + bits;
    var merkle := h.merkleRootHash + time;
    var prev := h.prevBlockHash + merkle;
    Split(LittleEndian(Unsigned(h.version), 4), prev, rest);
    WordRoundTrip(Unsigned(h.version), prev + rest);
    Split(h.prevBlockHash, merkle, rest);
    HashRoundTrip(h.prevBlockHash, merkle + rest);
    Split(h.merkleRootHash, time, rest);
    HashRoundTrip(h.merkleRootHash, time + rest);
    Split(LittleEndian(h.time, 4), bits, rest);
    WordRoundTrip(h.time, bits + rest);
    Split(LittleEndian(h.bits, 4), nonce, rest);
    WordRoundTrip(h.bits, nonce + rest);
    WordRoundTrip(h.nonce, rest);
  }

  /** A block within the limits is read back as it was written, and the following bytes are left alone. */
  lemma BlockRoundTrip(b: Block, rest: seq<byte>)
    requires FitsBlock(b)
    ensures ParseBlock(EncodeBlock(b) + rest) == Parsed(b, rest)
  {
    var txs := EncodeVector(b.transactions, EncodeTransaction);
    Split(EncodeHeader(b.header), txs, rest);
    HeaderRoundTrip(b.header, txs + rest);
    forall t: Transaction, rest: seq<byte> {:trigger ParseTransaction(EncodeTransaction(t) + rest)} | FitsTransaction(t)
      ensures ParseTransaction(EncodeTransaction(t) + rest) == Parsed(t, rest)
    {
      TransactionRoundTrip(t, rest);
    }
    VectorRoundTrip(b.transactions, rest, EncodeTransaction, ParseTransaction, FitsTransaction);
  }

  // ---------- writing inverts reading ----------

  lemma OutPointCanonical(bs: seq<byte>)
    requires ParseOutPoint(bs).Parsed?
    ensures var p := ParseOutPoint(bs); bs == EncodeOutPoint(p.value) + p.rest
  {
    IntCanonical(4, ParseHash(bs).rest);
  }

  lemma TxInCanonical(bs: seq<byte>)
    requires ParseTxIn(bs).Parsed?
    ensures var p := ParseTxIn(bs); FitsTxIn(p.value) && bs == EncodeTxIn(p.value) + p.rest
  {
    var r1 := ParseOutPoint(bs).rest;
    var r2 := ParseScript(r1).rest;
    OutPointCanonical(bs);
    ByteVectorCanonical(r1);
    IntCanonical(4, r2);
    var i, rest := ParseTxIn(bs).value, ParseTxIn(bs).rest;
    var script, sequence := EncodeByteVector(i.scriptSig), LittleEndian(i.sequence, 4);
    Join(r1, script, r2, sequence, rest);
    Join(bs, EncodeOutPoint(i.prevout), r1, script + sequence, rest);
  }

  lemma TxOutCanonical(bs: seq<byte>)
    requires ParseTxOut(bs).Parsed?
    ensures var p := ParseTxOut(bs); FitsTxOut(p.value) && bs == EncodeTxOut(p.value) + p.rest
  {
    var r1 := ParseLong(bs).rest;
    IntCanonical(8, bs);
    ByteVectorCanonical(r1);
    var o, rest := ParseTxOut(bs).value, ParseTxOut(bs).rest;
    Join(bs, LittleEndian(o.value, 8), r1, EncodeByteVector(o.scriptPubKey), rest);
  }

  lemma VectorsCanonical()
    ensures IsCanonical(EncodeTxIn, ParseTxIn, FitsTxIn) && IsCanonical(EncodeTxOut, ParseTxOut, FitsTxOut)
  {
    forall bs: seq<byte> {:trigger ParseTxIn(bs)} | ParseTxIn(bs).Parsed?
      ensures FitsTxIn(ParseTxIn(bs).value) && bs == EncodeTxIn(ParseTxIn(bs).value) + ParseTxIn(bs).rest
    {
      TxInCanonical(bs);
    }
    forall bs: seq<byte> {:trigger ParseTxOut(bs)} | ParseTxOut(bs).Parsed?
      ensures FitsTxOut(ParseTxOut(bs).value) && bs == EncodeTxOut(ParseTxOut(bs).value) + ParseTxOut(bs).rest
    {
      TxOutCanonical(bs);
    }
  }

  /** The reader accepts exactly the bytes that the writer produces. */
  lemma TransactionCanonical(bs: seq<byte>)
    requires ParseTransaction(bs).Parsed?
    ensures var p := ParseTransaction(bs); FitsTransaction(p.value) && bs == EncodeTransaction(p.value) + p.rest
  {
    VectorsCanonical();
    var r1 := ParseWord(bs).rest;
    var r2 := ParseVector(ParseTxIn, r1).rest;
    var r3 := ParseVector(ParseTxOut, r2).rest;
    IntCanonical(4, bs);
    VectorCanonical(r1, EncodeTxIn, ParseTxIn, FitsTxIn);
    VectorCanonical(r2, EncodeTxOut, ParseTxOut, FitsTxOut);
    IntCanonical(4, r3);
    var t, rest := ParseTransaction(bs).value, ParseTransaction(bs).rest;
    var ins, outs := EncodeVector(t.inputs, EncodeTxIn), EncodeVector(t.outputs, EncodeTxOut);
    var lock := LittleEndian(t.lockTime, 4);
    Join(r2, outs, r3, lock, rest);
    Join(r1, ins, r2, outs + lock, rest);
    Join(bs, LittleEndian(t.version, 4), r1, ins + (outs + lock), rest);
  }

  lemma TransactionsCanonical()
    ensures IsCanonical(EncodeTransaction, ParseTransaction, FitsTransaction)
  {
    forall bs: seq<byte> {:trigger ParseTransaction(bs)} | ParseTransaction(bs).Parsed?
      ensures FitsTransaction(ParseTransaction(bs).value)
      ensures bs == EncodeTransaction(ParseTransaction(bs).value) + ParseTransaction(bs).rest
    {
      TransactionCanonical(bs);
    }
  }

  lemma HeaderCanonical(bs: seq<byte>)
    requires ParseHeader(bs).Parsed?
    ensures var p := ParseHeader(bs); bs == EncodeHeader(p.value) + p.rest
  {
    var r1 := ParseWord(bs).rest;
    var r2 := ParseHash(r1).rest;
    var r3 := ParseHash(r2).rest;
    var r4 := ParseWord(r3).rest;
    var r5 := ParseWord(r4).rest;
    IntCanonical(4, bs);
    IntCanonical(4, r3);
    IntCanonical(4, r4);
    IntCanonical(4, r5);
    var h, rest := ParseHeader(bs).value, ParseHeader(bs).rest;
    assert Unsigned(h.version) == ParseWord(bs).value;
    JoinHeader(bs, h, r1, r2, r3, r4, r5, rest);
  }

  // The fields of a header, each in front of what follows it.
  lemma JoinHeader(bs: seq<byte>, h: BlockHeader, r1: seq<byte>, r2: seq<byte>, r3: seq<byte>,
                   r4: seq<byte>, r5: seq<byte>, rest: seq<byte>)
    requires bs == LittleEndian(Unsigned(h.version), 4) + r1 && r1 == h.prevBlockHash + r2
    requires r2 == h.merkleRootHash + r3 && r3 == LittleEndian(h.time, 4) + r4
    requires r4 == LittleEndian(h.bits, 4) + r5 && r5 == LittleEndian(h.nonce, 4) + rest
    ensures bs == EncodeHeader(h) + rest
  {
    var nonce := LittleEndian(h.nonce, 4);
    var bits := LittleEndian(h.bits, 4) + nonce;
    var time := LittleEndian(h.time, 4) + bits;
    var merkle := h.merkleRootHash + time;
    Join(r4, LittleEndian(h.bits, 4), r5, nonce, rest);
    Join(r3, LittleEndian(h.time, 4), r4, bits, rest);
    Join(r2, h.merkleRootHash, r3, time, rest);
    Join(r1, h.prevBlockHash, r2, merkle, rest);
    Join(bs, LittleEndian(Unsigned(h.version), 4), r1, h.prevBlockHash + merkle, rest);
  }

  /** The reader of blocks accepts exactly the bytes that the writer produces. */
  lemma BlockCanonical(bs: seq<byte>)
    requires ParseBlock(bs).Parsed?
    ensures var p := ParseBlock(bs); FitsBlock(p.value) && bs == EncodeBlock(p.value) + p.rest
  {
    var r1 := ParseHeader(bs).rest;
    HeaderCanonical(bs);
    TransactionsCanonical();
    VectorCanonical(r1, EncodeTransaction, ParseTransaction, FitsTransaction);
    var b, rest := ParseBlock(bs).value, ParseBlock(bs).rest;
    Join(bs, EncodeHeader(b.header), r1, EncodeVector(b.transactions, EncodeTransaction), rest);
  }

  /** No encoding of a transaction is the beginning of another's: the bytes determine the transaction. */
  lemma TransactionUnambiguous(s: Transaction, t: Transaction, more: seq<byte>, rest: seq<byte>)
    requires FitsTransaction(s) && FitsTransaction(t)
    requires EncodeTransaction(s) + more == EncodeTransaction(t) + rest
    ensures s == t && more == rest
  {
    TransactionRoundTrip(s, more);
    TransactionRoundTrip(t, rest);
  }

  // ---------- SerializedSize ----------

  function ScriptSize(v: ByteVector): nat { |v| + VarIntSize(|v|) }

  function TxInSize(i: TxIn): nat { 36 + ScriptSize(i.scriptSig) + 4 }

  function TxOutSize(o: TxOut): nat { ScriptSize(o.scriptPubKey) + 8 }

  // std::accumulate over the elements
  function SizeSum<T>(xs: seq<T>, size: T -> nat): nat {
    if xs == [] then 0 else SizeSum(xs[..|xs| - 1], size) + size(xs[|xs| - 1])
  }

  function TransactionSize(t: Transaction): nat {
    4 + 4 + VarIntSize(|t.inputs|) + SizeSum(t.inputs, TxInSize) +
    VarIntSize(|t.outputs|) + SizeSum(t.outputs, TxOutSize)
  }

  lemma {:induction false} SizeOfAll<T(!new)>(xs: seq<T>, encode: T -> seq<byte>, size: T -> nat)
    requires forall x: T {:trigger size(x)} :: |encode(x)| == size(x)
    ensures |EncodeAll(xs, encode)| == SizeSum(xs, size)
  {
    if xs != [] {
      var front, last := xs[..|xs| - 1], xs[|xs| - 1];
      SizeOfAll(front, encode, size);
      assert xs == front + [last];
      EncodeAllAppend(front, last, encode);
      assert |encode(last)| == size(last);
    }
  }

  /** A transaction writes exactly as many bytes as its size formula says. */
  lemma TransactionSizeExact(t: Transaction)
    ensures |EncodeTransaction(t)| == TransactionSize(t)
  {
    forall i: TxIn {:trigger TxInSize(i)} ensures |EncodeTxIn(i)| == TxInSize(i) { VarIntLength(|i.scriptSig|); }
    forall o: TxOut {:trigger TxOutSize(o)} ensures |EncodeTxOut(o)| == TxOutSize(o) { VarIntLength(|o.scriptPubKey|); }
    SizeOfAll(t.inputs, EncodeTxIn, TxInSize);
    SizeOfAll(t.outputs, EncodeTxOut, TxOutSize);
    VarIntLength(|t.inputs|);
    VarIntLength(|t.outputs|);
  }
}

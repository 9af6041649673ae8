/** Message headers, and the frames that a header and its payload make in the input buffer. */
module Messages {
  import opened Bits
  import opened Bytes
  import opened Endian
  import opened Serialization
  import opened StreamIO
  import opened Transactions

  const HEADER_SIZE := 24
  const COMMAND_SIZE := 12
  const MAX_MESSAGE_SIZE := 4_000_000

  type CommandField = c: seq<byte> | |c| == COMMAND_SIZE witness seq(COMMAND_SIZE, _ => 0)

  datatype MessageHeader = MessageHeader(magic: uint32, field: CommandField, payloadLength: uint32, checksum: uint32)

  // ---------- the command ----------

  // A string of 8-bit characters.
  predicate IsNarrow(s: string) { forall i :: 0 <= i < |s| ==> s[i] as int < 256 }

  function NarrowBytes(s: string): (bs: seq<byte>)
    requires IsNarrow(s)
    ensures |bs| == |s| && forall i :: 0 <= i < |s| ==> bs[i] == s[i] as int
  {
    if s == [] then [] else [s[0] as int] + NarrowBytes(s[1..])
  }

  // The characters before the first NUL.
  function UpToNul(bs: seq<byte>): (s: string)
    ensures |s| <= |bs| && (|s| < |bs| ==> bs[|s|] == 0)
    ensures forall i :: 0 <= i < |s| ==> s[i] as int == bs[i] && bs[i] != 0
  {
    if bs == [] || bs[0] == 0 then [] else [bs[0] as char] + UpToNul(bs[1..])
  }

  // set_command: as many characters as fit, the rest of the field zero.
  function CommandBytes(name: string): CommandField
    requires IsNarrow(name)
  {
    var size := if |name| < COMMAND_SIZE then |name| else COMMAND_SIZE;
    NarrowBytes(name)[..size] + seq(COMMAND_SIZE - size, _ => 0)
  }

  function Command(h: MessageHeader): string { UpToNul(h.field) }

  /** A command is read back as it was set exactly when it fits the field and contains no NUL. */
  lemma CommandRoundTrip(name: string)
    requires IsNarrow(name)
    ensures UpToNul(CommandBytes(name)) == name <==> |name| <= COMMAND_SIZE && '\0' !in name
  {
    var s, field := UpToNul(CommandBytes(name)), CommandBytes(name);
    if |name| <= COMMAND_SIZE && '\0' !in name {
      assert forall i :: 0 <= i < |name| ==> field[i] == name[i] as int && name[i] in name;
      assert forall i :: 0 <= i < |name| ==> field[i] != 0;
      assert |name| < COMMAND_SIZE ==> field[|name|] == 0;
      assert |s| == |name|;
      assert forall i :: 0 <= i < |s| ==> s[i] as int == name[i] as int;
    } else if '\0' in name && |name| <= COMMAND_SIZE {
      var k :| 0 <= k < |name| && name[k] == '\0';
      assert field[k] == 0;
    }
  }

  // ---------- the header on the wire ----------

  function EncodeMessageHeader(h: MessageHeader): (bs: seq<byte>)
    ensures |bs| == HEADER_SIZE
  {
    LittleEndian(h.magic, 4) + (h.field + (LittleEndian(h.payloadLength, 4) + LittleEndian(h.checksum, 4)))
  }

  function WordAt(bs: seq<byte>, at: nat): uint32
    requires at + 4 <= |bs|
  {
    ValueBelow(bs[at..at + 4]);
    Widths();
    Value(bs[at..at + 4])
  }

  // The header made from the first bytes of a buffer.
  function HeaderAt(bs: seq<byte>): MessageHeader
    requires |bs| >= HEADER_SIZE
  {
    MessageHeader(WordAt(bs, 0), bs[4..16], WordAt(bs, 16), WordAt(bs, 20))
  }

  lemma WordAtEncoded(n: uint32, bs: seq<byte>, at: nat)
    requires at + 4 <= |bs| && bs[at..at + 4] == LittleEndian(n, 4)
    ensures WordAt(bs, at) == n
  {
    Widths();
    ValueOfBytes(n, 4);
  }

  lemma MessageHeaderRoundTrip(h: MessageHeader, rest: seq<byte>)
    ensures HeaderAt(EncodeMessageHeader(h) + rest) == h
    ensures (EncodeMessageHeader(h) + rest)[HEADER_SIZE..] == rest
  {
    var bs := EncodeMessageHeader(h) + rest;
    WordAtEncoded(h.magic, bs, 0);
    WordAtEncoded(h.payloadLength, bs, 16);
    WordAtEncoded(h.checksum, bs, 20);
    assert bs[4..16] == h.field;
  }

  /** The layout: four bytes each for magic, payload length and checksum, the lowest first, and twelve for the command
      behind the magic. */
  lemma MessageHeaderLayout(h: MessageHeader, i: nat)
    requires i < 24
    ensures EncodeMessageHeader(h)[i] ==
            if i < 4 then h.magic / Pow256(i) % 256
            else if i < 16 then h.field[i - 4]
            else if i < 20 then h.payloadLength / Pow256(i - 16) % 256
            else h.checksum / Pow256(i - 20) % 256
  {
    if i < 4 { ByteAt(h.magic, 4, i); }
    else if 16 <= i < 20 { ByteAt(h.payloadLength, 4, i - 16); }
    else if 20 <= i { ByteAt(h.checksum, 4, i - 20); }
  }

  // The command is cut off at twelve characters and filled up with zeros.
  lemma CommandAt(name: string, i: nat)
    requires IsNarrow(name) && i < 12
    ensures CommandBytes(name)[i] == if i < |name| then name[i] as int else 0
  {
  }

  lemma EncodedWordAt(bs: seq<byte>, at: nat)
    requires at + 4 <= |bs|
    ensures LittleEndian(WordAt(bs, at), 4) == bs[at..at + 4]
  {
    BytesOfValue(bs[at..at + 4]);
  }

  lemma HeaderPieces(bs: seq<byte>)
    requires |bs| >= HEADER_SIZE
    ensures bs[..HEADER_SIZE] == bs[0..4] + (bs[4..16] + (bs[16..20] + bs[20..24]))
  {
  }

  lemma MessageHeaderCanonical(bs: seq<byte>)
    requires |bs| >= HEADER_SIZE
    ensures bs[..HEADER_SIZE] == EncodeMessageHeader(HeaderAt(bs))
  {
    EncodedWordAt(bs, 0);
    EncodedWordAt(bs, 16);
    EncodedWordAt(bs, 20);
    HeaderPieces(bs);
  }

  lemma CutHeader(bs: seq<byte>, c: nat)
    requires HEADER_SIZE <= c <= |bs|
    ensures HeaderAt(bs[..c]) == HeaderAt(bs)
  {
    assert bs[..c][0..4] == bs[0..4] && bs[..c][4..16] == bs[4..16];
    assert bs[..c][16..20] == bs[16..20] && bs[..c][20..24] == bs[20..24];
  }

  // The constructor from raw bytes: the fields are read in order from a stream over them.
  method FromRaw(raw: seq<byte>) returns (h: MessageHeader)
    requires |raw| >= HEADER_SIZE
    ensures h == HeaderAt(raw)
  {
    var source := new ByteSource(raw[..HEADER_SIZE]);
    assert source.Rest() == raw[..HEADER_SIZE];
    var magic := ReadFixed(source);
    assert source.Rest() == raw[4..HEADER_SIZE] && raw[..HEADER_SIZE][..4] == raw[0..4];
    var field, _ := source.Read(COMMAND_SIZE);
    assert field == raw[4..16] && source.Rest() == raw[16..HEADER_SIZE];
    var payloadLength := ReadFixed(source);
    assert source.Rest() == raw[20..HEADER_SIZE] && raw[16..HEADER_SIZE][..4] == raw[16..20];
    var checksum := ReadFixed(source);
    assert raw[20..HEADER_SIZE][..4] == raw[20..24];
    h := MessageHeader(magic, field, payloadLength, checksum);
  }

  method ReadFixed(source: ByteSource) returns (n: uint32)
    requires source.position <= |source.container| && |source.Rest()| >= 4
    modifies source
    ensures source.position <= |source.container|
    ensures n == Value(old(source.Rest())[..4]) && source.Rest() == old(source.Rest())[4..]
  {
    var data, _ := source.Read(4);
    ValueBelow(data);
    Widths();
    n := FromLittleEndian(data);
  }

  // ---------- frames ----------

  datatype Frame = Frame(header: MessageHeader, payload: seq<byte>)

  function EncodeFrame(f: Frame): seq<byte> { EncodeMessageHeader(f.header) + f.payload }

  function EncodeFrames(fs: seq<Frame>): seq<byte> {
    if fs == [] then [] else EncodeFrame(fs[0]) + EncodeFrames(fs[1..])
  }

  lemma {:induction false} FramesJoin(fs: seq<Frame>, more: seq<Frame>)
    ensures EncodeFrames(fs + more) == EncodeFrames(fs) + EncodeFrames(more)
  {
    if fs == [] {
      assert fs + more == more;
    } else {
      FramesJoin(fs[1..], more);
      assert (fs + more)[1..] == fs[1..] + more;
      Split(EncodeFrame(fs[0]), EncodeFrames(fs[1..]), EncodeFrames(more));
    }
  }

  lemma {:induction false} FramesAppend(fs: seq<Frame>, f: Frame)
    ensures EncodeFrames(fs + [f]) == EncodeFrames(fs) + EncodeFrame(f)
  {
    FramesJoin(fs, [f]);
    assert [f][1..] == [] && EncodeFrame(f) + [] == EncodeFrame(f);
  }

  // What the receiver takes from a peer of its own network.
  predicate IsGood(f: Frame, magic: uint32) {
    f.header.magic == magic && f.header.payloadLength == |f.payload| <= MAX_MESSAGE_SIZE
  }

  /** Why a pass over the buffer ended. */
  datatype Stop = Drained | Oversized | WrongMagic | Partial

  /** The frames handed to dispatch, what stays in the buffer, and why the pass ended. */
  datatype Pass = Pass(frames: seq<Frame>, rest: seq<byte>, stop: Stop)

  // One pass of the framing loop over a buffer.
  function Scan(buf: seq<byte>, magic: uint32): Pass
    decreases |buf|
  {
    if |buf| < HEADER_SIZE then Pass([], buf, Drained)
    else
      var header, after := HeaderAt(buf), buf[HEADER_SIZE..];
      if header.payloadLength > MAX_MESSAGE_SIZE then Pass([], after, Oversized)
      else if header.magic != magic then Pass([], after, WrongMagic)
      else if |after| < header.payloadLength then Pass([], after, Partial)
      else
        var more := Scan(after[header.payloadLength..], magic);
        Pass([Frame(header, after[..header.payloadLength])] + more.frames, more.rest, more.stop)
  }

  // A pass that hands over some frames first.
  function After(fs: seq<Frame>, p: Pass): Pass { Pass(fs + p.frames, p.rest, p.stop) }

  lemma AfterNone(p: Pass)
    ensures After([], p) == p
  {
    assert [] + p.frames == p.frames;
  }

  lemma AfterMore(fs: seq<Frame>, p: Pass)
    requires fs != []
    ensures After([fs[0]], After(fs[1..], p)) == After(fs, p)
  {
    assert [fs[0]] + (fs[1..] + p.frames) == fs + p.frames;
  }

  lemma {:induction false} ScanOne(f: Frame, tail: seq<byte>, magic: uint32)
    requires IsGood(f, magic)
    ensures Scan(EncodeFrame(f) + tail, magic) == After([f], Scan(tail, magic))
  {
    var buf := EncodeFrame(f) + tail;
    MessageHeaderRoundTrip(f.header, f.payload + tail);
    assert buf == EncodeMessageHeader(f.header) + (f.payload + tail);
    assert (f.payload + tail)[..|f.payload|] == f.payload && (f.payload + tail)[|f.payload|..] == tail;
  }

  /** Complete frames are handed over once each, in order; the pass then goes on with what follows them. */
  lemma {:induction false} ScanFrames(fs: seq<Frame>, tail: seq<byte>, magic: uint32)
    requires forall f <- fs :: IsGood(f, magic)
    ensures Scan(EncodeFrames(fs) + tail, magic) == After(fs, Scan(tail, magic))
  {
    if fs == [] {
      AfterNone(Scan(tail, magic));
      assert EncodeFrames(fs) + tail == tail;
    } else {
      ScanFrames(fs[1..], tail, magic);
      ScanOne(fs[0], EncodeFrames(fs[1..]) + tail, magic);
      AfterMore(fs, Scan(tail, magic));
      Split(EncodeFrame(fs[0]), EncodeFrames(fs[1..]), tail);
    }
  }

  // The buffer begins with a frame that is handed over.
  predicate Begins(buf: seq<byte>, magic: uint32) {
    |buf| >= HEADER_SIZE && HeaderAt(buf).magic == magic && HeaderAt(buf).payloadLength <= MAX_MESSAGE_SIZE &&
    HeaderAt(buf).payloadLength <= |buf| - HEADER_SIZE
  }

  lemma {:induction false} FirstFrame(buf: seq<byte>, magic: uint32) returns (f: Frame, tail: seq<byte>)
    requires Begins(buf, magic)
    ensures IsGood(f, magic) && buf == EncodeFrame(f) + tail && Scan(buf, magic) == After([f], Scan(tail, magic))
  {
    var size := HeaderAt(buf).payloadLength;
    f := Frame(HeaderAt(buf), buf[HEADER_SIZE..][..size]);
    tail := buf[HEADER_SIZE..][size..];
    MessageHeaderCanonical(buf);
    assert buf == buf[..HEADER_SIZE] + f.payload + tail;
  }

  lemma {:induction false} PassEnds(buf: seq<byte>, magic: uint32)
    requires |buf| >= HEADER_SIZE && !Begins(buf, magic)
    ensures var p := Scan(buf, magic);
            && p.frames == [] && p.rest == buf[HEADER_SIZE..] && !p.stop.Drained?
            && (p.stop.Oversized? <==> HeaderAt(buf).payloadLength > MAX_MESSAGE_SIZE)
            && (p.stop.WrongMagic? <==> HeaderAt(buf).payloadLength <= MAX_MESSAGE_SIZE && HeaderAt(buf).magic != magic)
  {
  }

  // The header of the frame that ended a pass, if one did.
  predicate IsLost(lost: seq<byte>, p: Pass, magic: uint32) {
    match p.stop
    case Drained => lost == [] && |p.rest| < 24
    case Oversized => |lost| == 24 && HeaderAt(lost).payloadLength > 4_000_000
    case WrongMagic => |lost| == 24 && HeaderAt(lost).magic != magic && HeaderAt(lost).payloadLength <= 4_000_000
    case Partial =>
      |lost| == 24 && HeaderAt(lost).magic == magic && |p.rest| < HeaderAt(lost).payloadLength <= 4_000_000
  }

  lemma Pieces(one: seq<byte>, more: seq<byte>, lost: seq<byte>, rest: seq<byte>)
    ensures one + (more + lost + rest) == one + more + lost + rest
  {
  }

  /** Nothing is lost but the header of a frame that ends the pass; what is handed over is good. */
  lemma {:induction false} ScanConserves(buf: seq<byte>, magic: uint32) returns (lost: seq<byte>)
    ensures var p := Scan(buf, magic);
            && (forall f <- p.frames :: IsGood(f, magic))
            && buf == EncodeFrames(p.frames) + lost + p.rest && IsLost(lost, p, magic)
    decreases |buf|
  {
    var p := Scan(buf, magic);
    if |buf| < HEADER_SIZE {
      lost := [];
      assert EncodeFrames([]) + lost + buf == buf;
    } else if !Begins(buf, magic) {
      lost := buf[..HEADER_SIZE];
      PassEnds(buf, magic);
      CutHeader(buf, HEADER_SIZE);
      assert EncodeFrames([]) + lost + buf[HEADER_SIZE..] == buf;
    } else {
      var f, tail := FirstFrame(buf, magic);
      lost := ScanConserves(tail, magic);
      var more := Scan(tail, magic);
      assert p.frames[1..] == more.frames;
      Pieces(EncodeFrame(f), EncodeFrames(more.frames), lost, more.rest);
    }
  }

  /** A buffer is emptied with every byte handed over exactly when it is a list of complete good frames. */
  lemma {:induction false} EmptiedIffFrames(buf: seq<byte>, fs: seq<Frame>, magic: uint32)
    ensures Scan(buf, magic) == Pass(fs, [], Drained) <==> buf == EncodeFrames(fs) && forall f <- fs :: IsGood(f, magic)
  {
    if Scan(buf, magic) == Pass(fs, [], Drained) {
      var lost := ScanConserves(buf, magic);
      assert buf == EncodeFrames(fs);
    }
    if buf == EncodeFrames(fs) && forall f <- fs :: IsGood(f, magic) {
      ScanFrames(fs, [], magic);
      assert EncodeFrames(fs) + [] == buf && fs + [] == fs;
    }
  }

  lemma {:induction false} WholeBuffer(f: Frame, magic: uint32)
    requires IsGood(f, magic)
    ensures Scan(EncodeFrame(f), magic) == Pass([f], [], Drained)
  {
    assert EncodeFrames([f]) == EncodeFrame(f) by { assert EncodeFrame(f) + EncodeFrames([]) == EncodeFrame(f); }
    EmptiedIffFrames(EncodeFrame(f), [f], magic);
  }

  // ---------- a stream that arrives in several reads ----------

  // The first c bytes end after a header whose payload is not complete.
  predicate EndsInPayload(fs: seq<Frame>, c: nat) {
    if fs == [] || c < HEADER_SIZE then false
    else if c < |EncodeFrame(fs[0])| then true
    else EndsInPayload(fs[1..], c - |EncodeFrame(fs[0])|)
  }

  // No read ends inside a payload, when the first of them begins at position `at`.
  predicate NoneEndsInPayload(fs: seq<Frame>, at: nat, chunks: seq<seq<byte>>)
    decreases |chunks|
  {
    chunks == [] || (!EndsInPayload(fs, at + |chunks[0]|) && NoneEndsInPayload(fs, at + |chunks[0]|, chunks[1..]))
  }

  function Joined(chunks: seq<seq<byte>>): seq<byte> {
    if chunks == [] then [] else chunks[0] + Joined(chunks[1..])
  }

  // How many frames are whole in the first c bytes.
  function WholeIn(fs: seq<Frame>, c: nat): (k: nat)
    ensures k <= |fs|
  {
    if fs == [] || c < |EncodeFrame(fs[0])| then 0 else 1 + WholeIn(fs[1..], c - |EncodeFrame(fs[0])|)
  }

  lemma {:induction false} WholeFits(fs: seq<Frame>, c: nat)
    ensures |EncodeFrames(fs[..WholeIn(fs, c)])| <= c
  {
    if fs != [] && |EncodeFrame(fs[0])| <= c {
      var d := c - |EncodeFrame(fs[0])|;
      WholeFits(fs[1..], d);
      assert fs[..1 + WholeIn(fs[1..], d)][1..] == fs[1..][..WholeIn(fs[1..], d)];
    }
  }

  // The first pass over a cut frame drops its header.
  lemma {:induction false} CutInside(f: Frame, more: seq<byte>, c: nat, magic: uint32)
    requires IsGood(f, magic) && HEADER_SIZE <= c < |EncodeFrame(f)|
    ensures var p := Scan((EncodeFrame(f) + more)[..c], magic); p.frames == [] && p.stop.Partial?
  {
    MessageHeaderRoundTrip(f.header, f.payload + more);
    Split(EncodeMessageHeader(f.header), f.payload, more);
    CutHeader(EncodeFrame(f) + more, c);
    PassEnds((EncodeFrame(f) + more)[..c], magic);
  }

  lemma CutBehind(one: seq<byte>, more: seq<byte>, c: nat)
    requires |one| <= c <= |one| + |more|
    ensures (one + more)[..c] == one + more[..c - |one|]
  {
  }

  // k frames are whole in the first c bytes of a stream, and `rest` of the next one.
  ghost predicate IsCut(fs: seq<Frame>, c: nat, k: nat, rest: seq<byte>) {
    k <= |fs| && |EncodeFrames(fs[..k])| + |rest| == c && rest <= EncodeFrames(fs[k..]) && |rest| < HEADER_SIZE
  }

  lemma {:induction false} NextCut(fs: seq<Frame>, c: nat, d: nat, k: nat, rest: seq<byte>)
    requires fs != [] && c == |EncodeFrame(fs[0])| + d && IsCut(fs[1..], d, k, rest)
    ensures IsCut(fs, c, k + 1, rest)
  {
    assert fs[..k + 1][1..] == fs[1..][..k] && fs[k + 1..] == fs[1..][k..];
  }

  // What a pass over the first c bytes of a stream of frames does.
  ghost predicate IsCutPass(fs: seq<Frame>, c: nat, p: Pass, k: nat) {
    && k <= |fs| && p.frames == fs[..k] && (p.stop.Drained? || p.stop.Partial?)
    && (p.stop.Drained? <==> !EndsInPayload(fs, c)) && (p.stop.Drained? ==> IsCut(fs, c, k, p.rest))
  }

  lemma {:induction false} NextCutPass(fs: seq<Frame>, c: nat, d: nat, p: Pass, k: nat)
    requires fs != [] && c == |EncodeFrame(fs[0])| + d && IsCutPass(fs[1..], d, p, k)
    ensures IsCutPass(fs, c, After([fs[0]], p), k + 1)
  {
    if p.stop.Drained? { NextCut(fs, c, d, k, p.rest); }
    assert fs[..k + 1] == [fs[0]] + fs[1..][..k];
  }

  lemma {:induction false} CutEarly(fs: seq<Frame>, c: nat, magic: uint32)
    requires c <= |EncodeFrames(fs)| && c < HEADER_SIZE
    ensures IsCutPass(fs, c, Scan(EncodeFrames(fs)[..c], magic), WholeIn(fs, c))
  {
    assert fs[0..] == fs;
  }

  lemma {:induction false} CutFirst(fs: seq<Frame>, c: nat, magic: uint32)
    requires fs != [] && IsGood(fs[0], magic) && HEADER_SIZE <= c < |EncodeFrame(fs[0])|
    ensures IsCutPass(fs, c, Scan(EncodeFrames(fs)[..c], magic), WholeIn(fs, c))
  {
    CutInside(fs[0], EncodeFrames(fs[1..]), c, magic);
  }

  lemma {:induction false} ScanLater(fs: seq<Frame>, c: nat, d: nat, magic: uint32)
    requires fs != [] && IsGood(fs[0], magic) && d <= |EncodeFrames(fs[1..])| && c == |EncodeFrame(fs[0])| + d
    ensures Scan(EncodeFrames(fs)[..c], magic) == After([fs[0]], Scan(EncodeFrames(fs[1..])[..d], magic))
  {
    CutBehind(EncodeFrame(fs[0]), EncodeFrames(fs[1..]), c);
    ScanOne(fs[0], EncodeFrames(fs[1..])[..d], magic);
  }

  lemma {:induction false} WholeLater(fs: seq<Frame>, c: nat, d: nat)
    requires fs != [] && c == |EncodeFrame(fs[0])| + d
    ensures WholeIn(fs, c) == WholeIn(fs[1..], d) + 1
  {
  }

  /** The pass over the first bytes of a stream hands over the frames that are whole, and drops a header exactly if the
      bytes end inside a payload. */
  lemma {:induction false} CutPass(fs: seq<Frame>, c: nat, magic: uint32) returns (p: Pass)
    requires (forall f <- fs :: IsGood(f, magic)) && c <= |EncodeFrames(fs)|
    ensures p == Scan(EncodeFrames(fs)[..c], magic)
    ensures IsCutPass(fs, c, p, WholeIn(fs, c))
  {
    if c < HEADER_SIZE {
      p := Scan(EncodeFrames(fs)[..c], magic);
      CutEarly(fs, c, magic);
    } else if c < |EncodeFrame(fs[0])| {
      p := Scan(EncodeFrames(fs)[..c], magic);
      CutFirst(fs, c, magic);
    } else {
      var d := c - |EncodeFrame(fs[0])|;
      var inner := CutPass(fs[1..], d, magic);
      p := After([fs[0]], inner);
      ScanLater(fs, c, d, magic);
      WholeLater(fs, c, d);
      NextCutPass(fs, c, d, inner, WholeIn(fs[1..], d));
    }
  }

  // Positions counted from the start of a later frame.
  lemma {:induction false} LaterPayload(fs: seq<Frame>, k: nat, c: nat)
    requires k <= |fs|
    ensures EndsInPayload(fs, |EncodeFrames(fs[..k])| + c) == EndsInPayload(fs[k..], c)
  {
    if k == 0 {
      assert fs[0..] == fs;
    } else {
      LaterPayload(fs[1..], k - 1, c);
      assert fs[..k][1..] == fs[1..][..k - 1] && fs[k..] == fs[1..][k - 1..];
    }
  }

  lemma {:induction false} LaterReads(fs: seq<Frame>, k: nat, at: nat, chunks: seq<seq<byte>>)
    requires k <= |fs|
    ensures NoneEndsInPayload(fs, |EncodeFrames(fs[..k])| + at, chunks) == NoneEndsInPayload(fs[k..], at, chunks)
    decreases |chunks|
  {
    if chunks != [] {
      LaterPayload(fs, k, at + |chunks[0]|);
      LaterReads(fs, k, at + |chunks[0]|, chunks[1..]);
    }
  }

  lemma {:induction false} RestOfStream(fs: seq<Frame>, c: nat, k: nat, rest: seq<byte>, more: seq<byte>)
    requires IsCut(fs, c, k, rest) && c <= |EncodeFrames(fs)| && more == EncodeFrames(fs)[c..]
    ensures rest + more == EncodeFrames(fs[k..])
  {
    FramesJoin(fs[..k], fs[k..]);
    assert fs == fs[..k] + fs[k..];
  }

  // The pass after the first read, and the stream that is left for the others.
  lemma {:induction false} FirstRead(fs: seq<Frame>, buf: seq<byte>, chunk: seq<byte>, more: seq<byte>, c: nat,
                                     magic: uint32)
    returns (p: Pass)
    requires (forall f <- fs :: IsGood(f, magic)) && buf + (chunk + more) == EncodeFrames(fs) && c == |buf| + |chunk|
    ensures p == Scan(buf + chunk, magic) && (p.stop.Drained? <==> !EndsInPayload(fs, c))
    ensures p.frames == fs[..WholeIn(fs, c)]
    ensures p.stop.Drained? ==> |EncodeFrames(p.frames)| + |p.rest| == c && |p.rest| < HEADER_SIZE
    ensures p.stop.Drained? ==> p.rest + more == EncodeFrames(fs[WholeIn(fs, c)..])
  {
    Split(buf, chunk, more);
    assert EncodeFrames(fs)[..c] == buf + chunk;
    p := CutPass(fs, c, magic);
    if p.stop.Drained? { RestOfStream(fs, c, WholeIn(fs, c), p.rest, more); }
  }

  // ---------- what is sent ----------

  // The frame that SendMsg writes for a message.
  function FrameOf(magic: uint32, command: string, payload: ByteVector, checksum: uint32): Frame
    requires IsNarrow(command)
  {
    Frame(MessageHeader(magic, CommandBytes(command), |payload| % 0x1_0000_0000, checksum), payload)
  }

  /** What one side sends, the other side of the same network takes, unless the payload is too large. */
  lemma SentIsGood(magic: uint32, command: string, payload: ByteVector, checksum: uint32)
    requires IsNarrow(command)
    ensures IsGood(FrameOf(magic, command, payload, checksum), magic) <==> |payload| <= MAX_MESSAGE_SIZE
  {
  }

  method WriteMessageHeader(sink: ByteSink, h: MessageHeader)
    modifies sink
    ensures sink.data == old(sink.data) + EncodeMessageHeader(h)
  {
    ghost var start := sink.data;
    WriteInt(sink, h.magic, 4);
    sink.Write(h.field);
    WriteInt(sink, h.payloadLength, 4);
    WriteInt(sink, h.checksum, 4);
    FourPieces(start, LittleEndian(h.magic, 4), h.field, LittleEndian(h.payloadLength, 4), LittleEndian(h.checksum, 4));
  }
}

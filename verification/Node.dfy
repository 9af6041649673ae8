/** One peer's connection: its buffers, and the methods that handle what arrives. */
module Nodes {
  import opened Bits
  import opened Bytes
  import opened Serialization
  import opened Messages
  import opened Handshake
  import opened Deliveries

  // Every handler called for these frames, in order after some history, answers true.
  predicate AllAnswered(o: Origin, es: seq<Event>, frames: seq<Frame>, w: World) {
    frames == [] ||
    (AllAnswered(o, es, frames[..|frames| - 1], w) &&
     Dispatch(Run(o, es + Arrivals(frames[..|frames| - 1], w)), o, frames[|frames| - 1], w).1)
  }

  lemma OneMoreFrame(o: Origin, es: seq<Event>, done: seq<Frame>, f: Frame, w: World)
    ensures es + Arrivals(done + [f], w) == es + Arrivals(done, w) + [Received(f, w)]
    ensures AllAnswered(o, es, done + [f], w) <==>
            AllAnswered(o, es, done, w) && Dispatch(Run(o, es + Arrivals(done, w)), o, f, w).1
  {
    assert (done + [f])[..|done|] == done;
    assert Arrivals(done + [f], w) == Arrivals(done, w) + [Received(f, w)];
  }

  lemma AfterStep(done: seq<Frame>, f: Frame, p: Pass)
    ensures After(done, After([f], p)) == After(done + [f], p)
  {
    assert done + ([f] + p.frames) == done + [f] + p.frames;
  }

  lemma AfterEnd(done: seq<Frame>, p: Pass)
    requires p.frames == []
    ensures After(done, p) == Pass(done, p.rest, p.stop)
  {
    assert done + [] == done;
  }

  // A frame that SendMsg built: of the right network, with the low 32 bits of the payload's length.
  predicate IsOwnFrame(f: Frame, magic: uint32) {
    f.header.magic == magic && f.header.payloadLength == |f.payload| % 0x1_0000_0000
  }

  class Node {
    const origin: Origin
    const magic: uint32
    var hasBev: bool
    var state: ConnectionState
    var version: uint32
    var services: uint64
    var startHeight: int32
    var relayTxes: bool
    var isWitness: bool
    var score: int
    var shouldBan: bool
    var input: seq<byte>
    var output: seq<byte>
    // Everything that happened to this connection, and every frame sent.
    ghost var history: seq<Event>
    ghost var sent: seq<Frame>

    ghost function Fields(): Conn
      reads this
    {
      Conn(state, version, services, startHeight, relayTxes, isWitness, score, shouldBan)
    }

    /** The fields are what the history leads to, and the output is what was sent. */
    ghost predicate Valid()
      reads this
    {
      Fields() == Run(origin, history) && output == EncodeFrames(sent) && forall f <- sent :: IsOwnFrame(f, magic)
    }

    constructor (origin: Origin, magic: uint32)
      ensures Valid() && this.origin == origin && this.magic == magic
      ensures hasBev && input == [] && output == [] && history == [] && sent == []
    {
      this.origin := origin;
      this.magic := magic;
      hasBev, state, version, services, startHeight := true, Initial, 0, 0, 0;
      relayTxes, isWitness, score, shouldBan := false, false, 0, false;
      input, output, history, sent := [], [], [], [];
    }

    method Misbehaving(howmuch: int)
      modifies `score, `shouldBan
      ensures Fields() == Misbehave(old(Fields()), howmuch)
    {
      if howmuch == 0 {
        return;
      }
      score := score + howmuch;
      if AsUnsigned(score) >= BAN_THRESHOLD && AsUnsigned(score - howmuch) < BAN_THRESHOLD {
        shouldBan := true;
      }
    }

    method CheckMisbehaving(command: string) returns (ok: bool)
      ensures ok == MayRun(command, Fields())
    {
      if command != VERSION && version == 0 {
        return false;
      }
      if command != VERSION && command != VERACK && state != Established {
        return false;
      }
      return true;
    }

    method Disconnect()
      requires Valid()
      modifies `state, `history
      ensures Valid() && history == old(history) + [Cut]
    {
      RunMore(origin, history, Cut);
      state := Disconnected;
      history := history + [Cut];
    }

    method HandleVersion(v: VersionData, w: World) returns (ok: bool)
      modifies `state, `version, `services, `startHeight, `relayTxes, `isWitness, `score, `shouldBan
      ensures (Fields(), ok) == RecvVersion(old(Fields()), origin, v, w)
    {
      if version != 0 {
        Misbehaving(1);
        return false;
      }
      if !origin.inbound && !origin.manual && !IsDesirable(v.services) {
        state := Disconnected;
        return false;
      }
      if And(v.services, FORK_SERVICES) != 0 {
        if w.now < FORK_DEADLINE {
          state := Disconnected;
          return false;
        }
      }
      if v.protocolVersion < MIN_VERSION {
        state := Disconnected;
        return false;
      }
      if origin.inbound && v.nonce in w.ownNonces {
        state := Disconnected;
        return true;
      }
      services := v.services;
      startHeight := Signed(v.startHeight);
      relayTxes := v.relay;
      version := v.protocolVersion;
      if And(v.services, NODE_WITNESS) != 0 {
        isWitness := true;
      }
      return true;
    }

    method HandleVerack() returns (ok: bool)
      modifies `state
      ensures (Fields(), ok) == RecvVerack(old(Fields()))
      ensures ok && Fields() == old(Fields()).(state := Established)
    {
      state := Established;
      return true;
    }

    // The checks made before a handler runs.
    method Gate(headerChecksum: uint32, command: string, checksum: uint32, valid: bool) returns (runs: bool)
      modifies `score, `shouldBan
      ensures runs <==> headerChecksum == checksum && valid && MayRun(command, old(Fields()))
      ensures Fields() == if headerChecksum == checksum && valid && !runs then Misbehave(old(Fields()), 1)
                          else old(Fields())
    {
      if headerChecksum != checksum {
        return false;
      }
      if !valid {
        return false;
      }
      var ok := CheckMisbehaving(command);
      if !ok {
        Misbehaving(1);
        return false;
      }
      return true;
    }

    method ParseMsgData(f: Frame, w: World) returns (ok: bool)
      requires Valid()
      modifies `state, `version, `services, `startHeight, `relayTxes, `isWitness, `score, `shouldBan, `history
      ensures Valid() && history == old(history) + [Received(f, w)]
      ensures (Fields(), ok) == Dispatch(old(Fields()), origin, f, w)
    {
      RunMore(origin, history, Received(f, w));
      history := history + [Received(f, w)];
      if !HeaderIsValid(f.header) {
        return false;
      }
      var command := Command(f.header);
      if command == VERSION {
        var v := w.asVersion(f.payload);
        var runs := Gate(f.header.checksum, command, v.checksum, VersionIsValid(v));
        if !runs { return false; }
        ok := HandleVersion(v, w);
      } else if command == VERACK {
        var runs := Gate(f.header.checksum, command, w.emptyChecksum, true);
        if !runs { return false; }
        ok := HandleVerack();
      } else if command in HANDLED {
        var m := w.asOther(command, f.payload, version);
        var runs := Gate(f.header.checksum, command, m.checksum, m.valid);
        if !runs { return false; }
        ok := m.answer;
      } else {
        ok := false;
      }
    }

    // One iteration of the framing loop: takes a frame from the buffer and hands it over, or stops.
    method TakeFrame(w: World) returns (taken: bool, ok: bool, ghost f: Frame)
      requires Valid() && |input| >= HEADER_SIZE
      modifies `state, `version, `services, `startHeight, `relayTxes, `isWitness, `score, `shouldBan, `history, `input
      ensures Valid() && taken == Begins(old(input), magic)
      ensures |input| <= |old(input)| - HEADER_SIZE
      ensures taken ==>
                && Scan(old(input), magic) == After([f], Scan(input, magic))
                && history == old(history) + [Received(f, w)]
                && ok == Dispatch(old(Fields()), origin, f, w).1
      ensures !taken ==>
                var p := Scan(old(input), magic);
                && p.frames == [] && input == p.rest && !p.stop.Drained?
                && history == old(history) + if p.stop.Oversized? || p.stop.WrongMagic? then [Cut] else []
    {
      ghost var buf := input;
      var header := FromRaw(input);
      input := input[HEADER_SIZE..];
      if header.payloadLength > MAX_MESSAGE_SIZE {
        PassEnds(buf, magic);
        Disconnect();
        return false, false, Frame(header, []);
      }
      if header.magic != magic {
        PassEnds(buf, magic);
        Disconnect();
        return false, false, Frame(header, []);
      }
      if |input| < header.payloadLength {
        PassEnds(buf, magic);
        return false, false, Frame(header, []);
      }
      ghost var _, tail := FirstFrame(buf, magic);
      f := Frame(header, input[..header.payloadLength]);
      ok := ParseMsgData(Frame(header, input[..header.payloadLength]), w);
      input := input[header.payloadLength..];
      taken := true;
    }

    /** The framing loop hands over the frames that one pass over the buffer finds, leaves in the buffer what the pass
        leaves, and disconnects when the pass ended at an oversized or foreign frame. */
    method ParseMsg(w: World) returns (ok: bool)
      requires Valid()
      modifies `state, `version, `services, `startHeight, `relayTxes, `isWitness, `score, `shouldBan, `history, `input
      ensures Valid()
      ensures !old(hasBev) || old(state).Disconnected? ==> !ok && input == old(input) && history == old(history)
      ensures old(hasBev) && !old(state).Disconnected? ==>
                var p := Scan(old(input), magic);
                && input == p.rest
                && history == old(history) + Arrivals(p.frames, w) +
                              (if p.stop.Oversized? || p.stop.WrongMagic? then [Cut] else [])
                && (ok <==> |old(input)| >= HEADER_SIZE && p.stop.Drained? &&
                            AllAnswered(origin, old(history), p.frames, w))
    {
      if !hasBev || state == Disconnected {
        return false;
      }
      if |input| < HEADER_SIZE {
        assert history + [] + [] == history;
        return false;
      }
      ok := true;
      ghost var before, all := history, Scan(input, magic);
      ghost var done: seq<Frame> := [];
      AfterNone(all);
      while |input| >= HEADER_SIZE
        invariant Valid()
        invariant all == After(done, Scan(input, magic))
        invariant history == before + Arrivals(done, w)
        invariant ok <==> AllAnswered(origin, before, done, w)
        decreases |input|
      {
        ghost var left := Scan(input, magic);
        var taken, answered, f := TakeFrame(w);
        if !taken {
          AfterEnd(done, left);
          return false;
        }
        ok := ok && answered;
        AfterStep(done, f, Scan(input, magic));
        OneMoreFrame(origin, before, done, f, w);
        done := done + [f];
      }
      AfterEnd(done, Scan(input, magic));
      assert history + [] == history;
    }

    // Bytes arrive in the input buffer, and the parser is called.
    method Receive(r: Read) returns (ok: bool)
      requires Valid() && hasBev
      modifies `state, `version, `services, `startHeight, `relayTxes, `isWitness, `score, `shouldBan, `history, `input
      ensures Valid()
      ensures Line(history, input) == AfterRead(origin, magic, Line(old(history), old(input)), r)
    {
      input := input + r.chunk;
      ok := ParseMsg(r.world);
    }

    /** A run of reads does to history and buffer what `AfterReads` says, and so hands over the frames of a stream
        exactly under the conditions of `ReadsDeliver`. */
    method ReceiveAll(rs: seq<Read>, ghost fs: seq<Frame>)
      requires Valid() && hasBev
      modifies `state, `version, `services, `startHeight, `relayTxes, `isWitness, `score, `shouldBan, `history, `input
      ensures Valid()
      ensures Line(history, input) == AfterReads(origin, magic, Line(old(history), old(input)), rs)
      ensures (forall f <- fs :: IsGood(f, magic)) && |old(input)| < HEADER_SIZE &&
              old(input) + Joined(Chunks(rs)) == EncodeFrames(fs) ==>
                (Gains(old(history), history, fs) <==>
                 NoneEndsInPayload(fs, |old(input)|, Chunks(rs)) &&
                 StaysOpen(origin, Stage(old(history), fs, |old(input)|), rs))
    {
      ghost var start := Line(history, input);
      var left := rs;
      while left != []
        invariant Valid() && hasBev
        invariant AfterReads(origin, magic, Line(history, input), left) == AfterReads(origin, magic, start, rs)
        decreases |left|
      {
        var _ := Receive(left[0]);
        left := left[1..];
      }
      if (forall f <- fs :: IsGood(f, magic)) && |start.input| < HEADER_SIZE &&
         start.input + Joined(Chunks(rs)) == EncodeFrames(fs) {
        ReadsDeliver(origin, magic, Stage(start.history, fs, |start.input|), start.input, rs);
      }
    }

    /** A message goes out as one frame after those before it, unless there is no connection, its data do not have the
        size they claim, or the write fails. */
    method SendMsg(command: string, payload: ByteVector, claimedSize: uint64, checksum: uint32, writeFails: bool)
      returns (ok: bool)
      requires Valid() && IsNarrow(command)
      modifies `output, `sent
      ensures Valid() && (ok <==> hasBev && |payload| == claimedSize && !writeFails)
      ensures sent == old(sent) + if ok then [FrameOf(magic, command, payload, checksum)] else []
      ensures ok ==>
                && |sent| > 0 && output == old(output) + EncodeFrame(sent[|sent| - 1])
                && var f := sent[|sent| - 1];
                   && f.header.magic == magic && f.header.checksum == checksum && f.payload == payload
                   && f.header.payloadLength == |payload| % 0x1_0000_0000
                   && (Command(f.header) == command <==> |command| <= 12 && '\0' !in command)
      ensures !ok ==> output == old(output)
    {
      if !hasBev {
        return false;
      }
      var header := MessageHeader(magic, CommandBytes(command), claimedSize % 0x1_0000_0000, checksum);
      var ms := BuildMessage(header, payload);
      if |ms| != HEADER_SIZE + claimedSize || writeFails {
        return false;
      }
      CommandRoundTrip(command);
      FramesAppend(sent, Frame(header, payload));
      output := output + ms;
      sent := sent + [Frame(header, payload)];
      return true;
    }

    // Header and data in one stream.
    static method BuildMessage(header: MessageHeader, payload: seq<byte>) returns (data: seq<byte>)
      ensures data == EncodeFrame(Frame(header, payload))
    {
      var ms := new ByteSink();
      WriteMessageHeader(ms, header);
      ms.Write(payload);
      assert [] + EncodeMessageHeader(header) == EncodeMessageHeader(header);
      data := ms.data;
    }

    /** What this side sent, in frames within the limit, is what the other side hands to dispatch, and nothing is
        left. */
    lemma SentArrives()
      requires Valid() && forall f <- sent :: |f.payload| <= MAX_MESSAGE_SIZE
      ensures Scan(output, magic) == Pass(sent, [], Drained)
    {
      EmptiedIffFrames(output, sent, magic);
    }
  }
}

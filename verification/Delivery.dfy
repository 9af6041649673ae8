/** A run of reads on one connection: what a stream of frames adds to its history, read by read. */
module Deliveries {
  import opened Bytes
  import opened Messages
  import opened Handshake

  // The events of handing over these frames.
  function Arrivals(frames: seq<Frame>, w: World): (es: seq<Event>)
    ensures |es| == |frames| && forall i :: 0 <= i < |es| ==> es[i] == Received(frames[i], w)
  {
    seq(|frames|, i requires 0 <= i < |frames| => Received(frames[i], w))
  }

  lemma {:induction false} RunMore(o: Origin, es: seq<Event>, e: Event)
    ensures Run(o, es + [e]) == Step(o, Run(o, es), e)
  {
    assert (es + [e])[..|es|] == es;
  }

  /** What a run of reads works on: the history of the connection and its input buffer. */
  datatype Line = Line(history: seq<Event>, input: seq<byte>)

  // Some bytes arrive, in a certain world, and the parser is called.
  datatype Read = Read(chunk: seq<byte>, world: World)

  // The parser does nothing on a disconnected connection; else it makes one pass, which may disconnect.
  function AfterRead(o: Origin, magic: uint32, l: Line, r: Read): Line {
    var buf := l.input + r.chunk;
    if Run(o, l.history).state.Disconnected? then Line(l.history, buf)
    else
      var p := Scan(buf, magic);
      var cuts := if p.stop.Oversized? || p.stop.WrongMagic? then [Cut] else [];
      Line(l.history + Arrivals(p.frames, r.world) + cuts, p.rest)
  }

  function AfterReads(o: Origin, magic: uint32, l: Line, rs: seq<Read>): Line
    decreases |rs|
  {
    if rs == [] then l else AfterReads(o, magic, AfterRead(o, magic, l, rs[0]), rs[1..])
  }

  function Chunks(rs: seq<Read>): (chunks: seq<seq<byte>>)
    ensures |chunks| == |rs|
  {
    if rs == [] then [] else [rs[0].chunk] + Chunks(rs[1..])
  }

  // The events hand over exactly these frames, one each, in order.
  predicate HandOver(es: seq<Event>, fs: seq<Frame>) {
    if es == [] || fs == [] then es == [] && fs == []
    else es[0].Received? && es[0].frame == fs[0] && HandOver(es[1..], fs[1..])
  }

  /** The history gained exactly one event for each of the frames, in order. */
  ghost predicate Gains(before: seq<Event>, after: seq<Event>, fs: seq<Frame>) {
    before <= after && HandOver(after[|before|..], fs)
  }

  /** Where a stream is between two reads: the history, the frames not yet handed over, and how much of the first of
      them has arrived. */
  datatype Stage = Stage(history: seq<Event>, frames: seq<Frame>, at: nat)

  // The stage after a read that hands over the frames it completes.
  function NextStage(s: Stage, r: Read): Stage {
    var c := s.at + |r.chunk|;
    var k := WholeIn(s.frames, c);
    WholeFits(s.frames, c);
    Stage(s.history + Arrivals(s.frames[..k], r.world), s.frames[k..], c - |EncodeFrames(s.frames[..k])|)
  }

  /** Whenever frames are still to come, the connection is not disconnected, each earlier read having handed over the
      frames that it completed. */
  predicate StaysOpen(o: Origin, s: Stage, rs: seq<Read>)
    decreases |rs|
  {
    s.frames == [] || rs == [] ||
    (!Run(o, s.history).state.Disconnected? && StaysOpen(o, NextStage(s, rs[0]), rs[1..]))
  }

  // ---------- what the run does whatever arrives ----------

  lemma {:induction false} HistoryGrows(o: Origin, magic: uint32, l: Line, rs: seq<Read>)
    ensures l.history <= AfterReads(o, magic, l, rs).history
    decreases |rs|
  {
    if rs != [] {
      HistoryGrows(o, magic, AfterRead(o, magic, l, rs[0]), rs[1..]);
    }
  }

  // A disconnected connection takes no frame ever again.
  lemma {:induction false} ClosedTakesNothing(o: Origin, magic: uint32, l: Line, rs: seq<Read>)
    requires Run(o, l.history).state.Disconnected?
    ensures AfterReads(o, magic, l, rs) == Line(l.history, l.input + Joined(Chunks(rs)))
    decreases |rs|
  {
    if rs == [] {
      assert l.input + [] == l.input;
    } else {
      ClosedTakesNothing(o, magic, AfterRead(o, magic, l, rs[0]), rs[1..]);
      assert l.input + rs[0].chunk + Joined(Chunks(rs[1..])) == l.input + Joined(Chunks(rs));
    }
  }

  lemma {:induction false} NothingArrives(o: Origin, magic: uint32, es: seq<Event>, rs: seq<Read>)
    requires Joined(Chunks(rs)) == []
    ensures AfterReads(o, magic, Line(es, []), rs) == Line(es, [])
    decreases |rs|
  {
    if rs != [] {
      assert rs[0].chunk == [];
      assert es + [] + [] == es;
      NothingArrives(o, magic, es, rs[1..]);
    }
  }

  // The bytes of the frames that a history received.
  function Taken(es: seq<Event>): nat {
    if es == [] then 0 else (if es[0].Received? then |EncodeFrame(es[0].frame)| else 0) + Taken(es[1..])
  }

  lemma {:induction false} TakenJoin(es: seq<Event>, more: seq<Event>)
    ensures Taken(es + more) == Taken(es) + Taken(more)
  {
    if es == [] {
      assert es + more == more;
    } else {
      TakenJoin(es[1..], more);
      assert (es + more)[1..] == es[1..] + more;
    }
  }

  lemma {:induction false} TakenHandOver(es: seq<Event>, fs: seq<Frame>)
    requires HandOver(es, fs)
    ensures Taken(es) == |EncodeFrames(fs)|
  {
    if fs != [] { TakenHandOver(es[1..], fs[1..]); }
  }

  lemma {:induction false} TakenGains(before: seq<Event>, after: seq<Event>, fs: seq<Frame>)
    requires Gains(before, after, fs)
    ensures Taken(after) == Taken(before) + |EncodeFrames(fs)|
  {
    TakenHandOver(after[|before|..], fs);
    TakenJoin(before, after[|before|..]);
    assert after == before + after[|before|..];
  }

  // Frames handed over in front of others.
  lemma {:induction false} HandOverMore(fs: seq<Frame>, w: World, more: seq<Event>, tail: seq<Frame>)
    ensures HandOver(Arrivals(fs, w) + more, fs + tail) <==> HandOver(more, tail)
  {
    if fs == [] {
      assert Arrivals(fs, w) + more == more && fs + tail == tail;
    } else {
      HandOverMore(fs[1..], w, more, tail);
      assert (Arrivals(fs, w) + more)[1..] == Arrivals(fs[1..], w) + more && (fs + tail)[1..] == fs[1..] + tail;
    }
  }

  lemma {:induction false} TakenArrivals(fs: seq<Frame>, w: World)
    ensures Taken(Arrivals(fs, w)) == |EncodeFrames(fs)|
  {
    HandOverMore(fs, w, [], []);
    assert Arrivals(fs, w) + [] == Arrivals(fs, w) && fs + [] == fs;
    TakenHandOver(Arrivals(fs, w), fs);
  }

  // One read takes no more bytes than there are, and fewer when it loses a header.
  lemma {:induction false} ReadTakesBytes(o: Origin, magic: uint32, l: Line, r: Read)
    ensures var m := AfterRead(o, magic, l, r);
            && Taken(m.history) + |m.input| <= Taken(l.history) + |l.input| + |r.chunk|
            && (!Run(o, l.history).state.Disconnected? && !Scan(l.input + r.chunk, magic).stop.Drained? ==>
                  Taken(m.history) + |m.input| < Taken(l.history) + |l.input| + |r.chunk|)
  {
    if !Run(o, l.history).state.Disconnected? {
      var p := Scan(l.input + r.chunk, magic);
      var lost := ScanConserves(l.input + r.chunk, magic);
      var cuts := if p.stop.Oversized? || p.stop.WrongMagic? then [Cut] else [];
      TakenArrivals(p.frames, r.world);
      TakenJoin(l.history, Arrivals(p.frames, r.world));
      TakenJoin(l.history + Arrivals(p.frames, r.world), cuts);
      assert Taken([Cut]) == 0 by { assert [Cut][1..] == []; }
    }
  }

  /** The frames handed over in a run of reads take no more bytes than arrived, and fewer when the first read loses a
      header. */
  lemma {:induction false} ReadsTakeBytes(o: Origin, magic: uint32, l: Line, rs: seq<Read>)
    ensures Taken(AfterReads(o, magic, l, rs).history) <= Taken(l.history) + |l.input| + |Joined(Chunks(rs))|
    ensures rs != [] && !Run(o, l.history).state.Disconnected? && !Scan(l.input + rs[0].chunk, magic).stop.Drained? ==>
              Taken(AfterReads(o, magic, l, rs).history) < Taken(l.history) + |l.input| + |Joined(Chunks(rs))|
    decreases |rs|
  {
    if rs != [] {
      ReadTakesBytes(o, magic, l, rs[0]);
      ReadsTakeBytes(o, magic, AfterRead(o, magic, l, rs[0]), rs[1..]);
    }
  }

  // ---------- a stream of frames ----------

  lemma GainsMore(es: seq<Event>, fs: seq<Frame>, k: nat, w: World, h: seq<Event>)
    requires k <= |fs| && es + Arrivals(fs[..k], w) <= h
    ensures Gains(es, h, fs) <==> Gains(es + Arrivals(fs[..k], w), h, fs[k..])
  {
    var more := es + Arrivals(fs[..k], w);
    HandOverMore(fs[..k], w, h[|more|..], fs[k..]);
    assert h == more + h[|more|..] && fs == fs[..k] + fs[k..];
    assert h[|es|..] == Arrivals(fs[..k], w) + h[|more|..];
  }

  lemma {:induction false} StreamEnds(buf: seq<byte>, fs: seq<Frame>)
    requires buf + [] == EncodeFrames(fs) && |buf| < HEADER_SIZE
    ensures fs == []
  {
  }

  /** Frames that arrive in any number of reads are all handed over, each once and in order, and the connection is not
      cut, exactly when no read ends inside a payload (the loop drops a header before it knows that its payload has
      arrived) and the connection is not disconnected while frames are still to come. The buffer holds the beginning of
      the first frame, less than a header. */
  lemma {:induction false} ReadsDeliver(o: Origin, magic: uint32, s: Stage, buf: seq<byte>, rs: seq<Read>)
    requires (forall f <- s.frames :: IsGood(f, magic)) && |buf| == s.at < HEADER_SIZE
    requires buf + Joined(Chunks(rs)) == EncodeFrames(s.frames)
    ensures Gains(s.history, AfterReads(o, magic, Line(s.history, buf), rs).history, s.frames)
            <==> NoneEndsInPayload(s.frames, s.at, Chunks(rs)) && StaysOpen(o, s, rs)
    decreases |rs|, 2
  {
    if rs == [] {
      StreamEnds(buf, s.frames);
    } else if s.frames == [] {
      NoFramesLeft(o, magic, s, rs);
    } else if Run(o, s.history).state.Disconnected? {
      ClosedGainsNothing(o, magic, s, buf, rs);
    } else {
      OpenReadDelivers(o, magic, s, buf, rs);
    }
  }

  lemma EndsInside(fs: seq<Frame>, at: nat, rs: seq<Read>)
    requires rs != [] && EndsInPayload(fs, at + |rs[0].chunk|)
    ensures !NoneEndsInPayload(fs, at, Chunks(rs))
  {
  }

  lemma {:induction false} OpenReadDelivers(o: Origin, magic: uint32, s: Stage, buf: seq<byte>, rs: seq<Read>)
    requires (forall f <- s.frames :: IsGood(f, magic)) && |buf| == s.at < HEADER_SIZE
    requires buf + Joined(Chunks(rs)) == EncodeFrames(s.frames)
    requires s.frames != [] && rs != [] && !Run(o, s.history).state.Disconnected?
    ensures Gains(s.history, AfterReads(o, magic, Line(s.history, buf), rs).history, s.frames)
            <==> NoneEndsInPayload(s.frames, s.at, Chunks(rs)) && StaysOpen(o, s, rs)
    decreases |rs|, 1
  {
    var p := FirstPass(o, magic, s, buf, rs[0], Joined(Chunks(rs[1..])));
    if EndsInPayload(s.frames, s.at + |rs[0].chunk|) {
      EndsInside(s.frames, s.at, rs);
      LostHeader(o, magic, s.history, buf, rs, s.frames, p);
    } else {
      NextRead(o, magic, s, buf, rs, NextStage(s, rs[0]), p.rest);
    }
  }

  // The pass after a read loses a header, or leaves the run where the stream is.
  lemma {:induction false} FirstPass(o: Origin, magic: uint32, s: Stage, buf: seq<byte>, r: Read, more: seq<byte>)
    returns (p: Pass)
    requires (forall f <- s.frames :: IsGood(f, magic)) && |buf| == s.at
    requires buf + (r.chunk + more) == EncodeFrames(s.frames) && !Run(o, s.history).state.Disconnected?
    ensures p == Scan(buf + r.chunk, magic) && (p.stop.Drained? <==> !EndsInPayload(s.frames, s.at + |r.chunk|))
    ensures p.stop.Drained? ==>
              var n := NextStage(s, r);
              && AfterRead(o, magic, Line(s.history, buf), r) == Line(n.history, p.rest)
              && |p.rest| == n.at < HEADER_SIZE && p.rest + more == EncodeFrames(n.frames)
  {
    var c := s.at + |r.chunk|;
    p := FirstRead(s.frames, buf, r.chunk, more, c, magic);
    if p.stop.Drained? {
      RestIsNext(s, r, c, p, more);
      NextLine(o, magic, s, buf, r, p);
    }
  }

  lemma {:induction false} NoFramesLeft(o: Origin, magic: uint32, s: Stage, rs: seq<Read>)
    requires s.frames == [] && Joined(Chunks(rs)) == []
    ensures Gains(s.history, AfterReads(o, magic, Line(s.history, []), rs).history, s.frames)
    ensures NoneEndsInPayload(s.frames, s.at, Chunks(rs))
  {
    NothingArrives(o, magic, s.history, rs);
    NoneWithoutFrames(s.at, Chunks(rs));
  }

  lemma {:induction false} ClosedGainsNothing(o: Origin, magic: uint32, s: Stage, buf: seq<byte>, rs: seq<Read>)
    requires s.frames != [] && rs != [] && Run(o, s.history).state.Disconnected?
    ensures !Gains(s.history, AfterReads(o, magic, Line(s.history, buf), rs).history, s.frames)
    ensures !StaysOpen(o, s, rs)
  {
    ClosedTakesNothing(o, magic, Line(s.history, buf), rs);
  }

  lemma {:induction false} NoneWithoutFrames(at: nat, chunks: seq<seq<byte>>)
    ensures NoneEndsInPayload([], at, chunks)
    decreases |chunks|
  {
    if chunks != [] { NoneWithoutFrames(at + |chunks[0]|, chunks[1..]); }
  }

  lemma {:induction false} LostHeader(o: Origin, magic: uint32, es: seq<Event>, buf: seq<byte>, rs: seq<Read>,
                                      fs: seq<Frame>, p: Pass)
    requires rs != [] && !Run(o, es).state.Disconnected? && buf + Joined(Chunks(rs)) == EncodeFrames(fs)
    requires p == Scan(buf + rs[0].chunk, magic) && !p.stop.Drained?
    ensures !Gains(es, AfterReads(o, magic, Line(es, buf), rs).history, fs)
  {
    var h := AfterReads(o, magic, Line(es, buf), rs).history;
    ReadsTakeBytes(o, magic, Line(es, buf), rs);
    if Gains(es, h, fs) { TakenGains(es, h, fs); }
  }

  // What has arrived of the next frame is what the pass left.
  lemma {:induction false} RestIsNext(s: Stage, r: Read, c: nat, p: Pass, more: seq<byte>)
    requires c == s.at + |r.chunk| && p.frames == s.frames[..WholeIn(s.frames, c)]
    requires |EncodeFrames(p.frames)| + |p.rest| == c && p.rest + more == EncodeFrames(s.frames[WholeIn(s.frames, c)..])
    ensures |p.rest| == NextStage(s, r).at && p.rest + more == EncodeFrames(NextStage(s, r).frames)
  {
  }

  // A read that ends between frames leaves the run where the stream is.
  lemma {:induction false} NextLine(o: Origin, magic: uint32, s: Stage, buf: seq<byte>, r: Read, p: Pass)
    requires !Run(o, s.history).state.Disconnected? && |buf| == s.at
    requires p == Scan(buf + r.chunk, magic) && p.stop.Drained?
    requires p.frames == s.frames[..WholeIn(s.frames, s.at + |r.chunk|)]
    ensures AfterRead(o, magic, Line(s.history, buf), r) == Line(NextStage(s, r).history, p.rest)
  {
    var h := NextStage(s, r).history;
    assert h + [] == h;
  }

  lemma {:induction false} NextPayload(s: Stage, rs: seq<Read>)
    requires rs != [] && !EndsInPayload(s.frames, s.at + |rs[0].chunk|)
    ensures var n := NextStage(s, rs[0]);
            NoneEndsInPayload(s.frames, s.at, Chunks(rs)) <==> NoneEndsInPayload(n.frames, n.at, Chunks(rs[1..]))
  {
    var n := NextStage(s, rs[0]);
    LaterReads(s.frames, WholeIn(s.frames, s.at + |rs[0].chunk|), n.at, Chunks(rs[1..]));
    assert Chunks(rs)[1..] == Chunks(rs[1..]);
  }

  lemma {:induction false} NextRead(o: Origin, magic: uint32, s: Stage, buf: seq<byte>, rs: seq<Read>,
                                    n: Stage, rest: seq<byte>)
    requires (forall f <- s.frames :: IsGood(f, magic)) && s.frames != [] && rs != []
    requires !Run(o, s.history).state.Disconnected? && !EndsInPayload(s.frames, s.at + |rs[0].chunk|)
    requires n == NextStage(s, rs[0]) && AfterRead(o, magic, Line(s.history, buf), rs[0]) == Line(n.history, rest)
    requires |rest| == n.at < HEADER_SIZE && rest + Joined(Chunks(rs[1..])) == EncodeFrames(n.frames)
    ensures Gains(s.history, AfterReads(o, magic, Line(s.history, buf), rs).history, s.frames)
            <==> NoneEndsInPayload(s.frames, s.at, Chunks(rs)) && StaysOpen(o, s, rs)
    decreases |rs|, 0
  {
    var h := AfterReads(o, magic, Line(n.history, rest), rs[1..]).history;
    assert forall f <- n.frames :: f in s.frames;
    HistoryGrows(o, magic, Line(n.history, rest), rs[1..]);
    ReadsDeliver(o, magic, n, rest, rs[1..]);
    GainsMore(s.history, s.frames, WholeIn(s.frames, s.at + |rs[0].chunk|), rs[0].world, h);
    NextPayload(s, rs);
  }

  // ---------- when a read leaves the connection disconnected ----------

  // The event at j is a version message that is turned away, none having been accepted before.
  predicate TurnsAway(o: Origin, es: seq<Event>, j: nat)
    requires j < |es|
  {
    IsVersion(es[j]) && j < Accepted(o, es)
  }

  // The event at j is a verack after the accepted version.
  predicate Establishes(o: Origin, es: seq<Event>, j: nat)
    requires j < |es|
  {
    IsVerack(es[j]) && Accepted(o, es) < j
  }

  lemma SameAccepted(o: Origin, es: seq<Event>, more: seq<Event>)
    ensures Accepted(o, es) < |es| ==> Accepted(o, es + more) == Accepted(o, es)
    ensures Accepted(o, es) == |es| ==> Accepted(o, es + more) >= |es|
  {
    assert (es + more)[..|es|] == es;
    if Accepted(o, es) < |es| {
      AcceptedExtends(o, es + more, |es|);
    } else {
      assert forall i :: 0 <= i < |es| ==> (es + more)[i] == es[i];
    }
  }

  // Frames alone do not undo a completed handshake.
  lemma FramesKeepShaken(o: Origin, es: seq<Event>, frames: seq<Frame>, w: World)
    requires IsShaken(o, es)
    ensures IsShaken(o, es + Arrivals(frames, w))
  {
    var all := es + Arrivals(frames, w);
    SameAccepted(o, es, Arrivals(frames, w));
    var j :| Completes(o, es, j);
    assert Completes(o, all, j) by {
      forall k | j < k < |all|
        ensures !all[k].Cut?
      {
        if k < |es| { assert all[k] == es[k]; }
      }
    }
  }

  lemma FramesTouch(o: Origin, es: seq<Event>, frames: seq<Frame>, w: World)
    requires IsUntouched(o, es)
    ensures var all := es + Arrivals(frames, w);
            IsUntouched(o, all) <==>
            forall j :: |es| <= j < |all| ==> !TurnsAway(o, all, j) && !Establishes(o, all, j)
  {
    var all := es + Arrivals(frames, w);
    SameAccepted(o, es, Arrivals(frames, w));
    forall j | 0 <= j < |es|
      ensures !Touches(o, all, j)
    {
      assert !Touches(o, es, j) && all[j] == es[j];
    }
    forall j | |es| <= j < |all|
      ensures Touches(o, all, j) == (TurnsAway(o, all, j) || Establishes(o, all, j))
    {
    }
  }

  lemma FramesShake(o: Origin, es: seq<Event>, frames: seq<Frame>, w: World, j: nat)
    requires var all := es + Arrivals(frames, w); |es| <= j < |all| && Establishes(o, all, j)
    ensures IsShaken(o, es + Arrivals(frames, w))
  {
    assert Completes(o, es + Arrivals(frames, w), j);
  }

  /** The frames of one read leave an open connection disconnected exactly when they hold a version message that is
      turned away, none having been accepted before it, and no verack after an accepted version. */
  lemma {:induction false} ReadDisconnects(o: Origin, es: seq<Event>, frames: seq<Frame>, w: World)
    requires !Run(o, es).state.Disconnected?
    ensures var all := es + Arrivals(frames, w);
            Run(o, all).state.Disconnected? <==>
            && (exists j :: |es| <= j < |all| && TurnsAway(o, all, j))
            && (forall j :: |es| <= j < |all| ==> !Establishes(o, all, j))
  {
    var all := es + Arrivals(frames, w);
    SameAccepted(o, es, Arrivals(frames, w));
    DisconnectedIff(o, es);
    DisconnectedIff(o, all);
    if IsShaken(o, es) {
      FramesKeepShaken(o, es, frames, w);
      var i :| Completes(o, es, i);
      assert forall j :: |es| <= j < |all| ==> !TurnsAway(o, all, j);
    } else {
      FramesTouch(o, es, frames, w);
      if j :| |es| <= j < |all| && Establishes(o, all, j) {
        FramesShake(o, es, frames, w, j);
      } else if IsShaken(o, all) {
        var j :| Completes(o, all, j);
        assert j >= |es| ==> Establishes(o, all, j);
        assert all[j] == es[j] && Touches(o, es, j);
      }
    }
  }

  // With a version recorded, no frame disconnects.
  lemma {:induction false} FramesKeepOpen(o: Origin, es: seq<Event>, frames: seq<Frame>, w: World)
    requires Accepted(o, es) < |es| && !Run(o, es).state.Disconnected?
    ensures var all := es + Arrivals(frames, w); Accepted(o, all) < |all| && !Run(o, all).state.Disconnected?
  {
    SameAccepted(o, es, Arrivals(frames, w));
    ReadDisconnects(o, es, frames, w);
  }

  lemma {:induction false} OpenOnceRecorded(o: Origin, s: Stage, rs: seq<Read>)
    requires Accepted(o, s.history) < |s.history| && !Run(o, s.history).state.Disconnected?
    ensures StaysOpen(o, s, rs)
    decreases |rs|
  {
    if s.frames != [] && rs != [] {
      var n, k := NextStage(s, rs[0]), WholeIn(s.frames, s.at + |rs[0].chunk|);
      assert n.history == s.history + Arrivals(s.frames[..k], rs[0].world);
      FramesKeepOpen(o, s.history, s.frames[..k], rs[0].world);
      OpenOnceRecorded(o, n, rs[1..]);
      OpenBefore(o, s, rs);
    }
  }

  lemma {:induction false} OpenBefore(o: Origin, s: Stage, rs: seq<Read>)
    requires rs != [] && !Run(o, s.history).state.Disconnected? && StaysOpen(o, NextStage(s, rs[0]), rs[1..])
    ensures StaysOpen(o, s, rs)
  {
  }

  /** Once a version is recorded on an open connection, frames are all handed over exactly when no read ends inside a
      payload. */
  lemma {:induction false} RecordedReadsDeliver(o: Origin, magic: uint32, s: Stage, buf: seq<byte>, rs: seq<Read>)
    requires (forall f <- s.frames :: IsGood(f, magic)) && |buf| == s.at < HEADER_SIZE
    requires buf + Joined(Chunks(rs)) == EncodeFrames(s.frames)
    requires Accepted(o, s.history) < |s.history| && !Run(o, s.history).state.Disconnected?
    ensures Gains(s.history, AfterReads(o, magic, Line(s.history, buf), rs).history, s.frames)
            <==> NoneEndsInPayload(s.frames, s.at, Chunks(rs))
  {
    ReadsDeliver(o, magic, s, buf, rs);
    OpenOnceRecorded(o, s, rs);
  }

  // A read of one whole frame.
  lemma {:induction false} ReadOne(o: Origin, magic: uint32, es: seq<Event>, f: Frame, w: World)
    requires IsGood(f, magic) && !Run(o, es).state.Disconnected?
    ensures AfterRead(o, magic, Line(es, []), Read(EncodeFrame(f), w)) == Line(es + [Received(f, w)], [])
  {
    WholeBuffer(f, magic);
    FirstBytes(EncodeFrame(f));
    OneArrival(es, f, w);
  }

  lemma FirstBytes(bs: seq<byte>)
    ensures [] + bs == bs
  {
  }

  lemma OneArrival(es: seq<Event>, f: Frame, w: World)
    ensures es + Arrivals([f], w) + [] == es + [Received(f, w)]
  {
    assert Arrivals([f], w) == [Received(f, w)];
  }

  /** The verack that one side sends, with the checksum of its empty data, completes the handshake of the other side of
      the same network, if that has recorded a version and is not disconnected. */
  lemma {:induction false} SentVerackEstablishes(o: Origin, magic: uint32, es: seq<Event>, w: World)
    requires magic in NETWORK_MAGICS && Accepted(o, es) < |es| && !Run(o, es).state.Disconnected?
    ensures var f := FrameOf(magic, "verack", [], w.emptyChecksum);
            var l := AfterRead(o, magic, Line(es, []), Read(EncodeFrame(f), w));
            l == Line(es + [Received(f, w)], []) && Run(o, l.history) == Run(o, es).(state := Established)
  {
    HistoryExplains(o, es);
    SentIsGood(magic, "verack", [], w.emptyChecksum);
    SentVerackRuns(Run(o, es), magic, w);
    ReadVerack(o, magic, es, FrameOf(magic, "verack", [], w.emptyChecksum), w);
  }

  // A read of one verack that is admitted.
  lemma {:induction false} ReadVerack(o: Origin, magic: uint32, es: seq<Event>, f: Frame, w: World)
    requires IsGood(f, magic) && !Run(o, es).state.Disconnected?
    requires Command(f.header) == VERACK && Admit(Run(o, es), f, w).Runs?
    ensures AfterRead(o, magic, Line(es, []), Read(EncodeFrame(f), w)) == Line(es + [Received(f, w)], [])
    ensures Run(o, es + [Received(f, w)]) == Run(o, es).(state := Established)
  {
    ReadOne(o, magic, es, f, w);
    RunMore(o, es, Received(f, w));
  }

  lemma SentVerackRuns(c: Conn, magic: uint32, w: World)
    requires magic in NETWORK_MAGICS && c.version != 0
    ensures var f := FrameOf(magic, "verack", [], w.emptyChecksum);
            Command(f.header) == "verack" && Admit(c, f, w).Runs?
  {
    CommandRoundTrip("verack");
    SentIsAdmitted(c, magic, "verack", [], w.emptyChecksum, w);
  }

  lemma {:induction false} RejectionDisconnects(o: Origin, f: Frame, w: World)
    requires IsVersion(Received(f, w)) && IsRejected(o, w.asVersion(f.payload), w)
    ensures Run(o, [Received(f, w)]).state.Disconnected?
  {
    VersionFree(f, w, FRESH.version);
    RunMore(o, [], Received(f, w));
    assert [] + [Received(f, w)] == [Received(f, w)];
  }

  /** A version message that is turned away in one read keeps the frame of the next read in the buffer, although
      neither read ends inside a payload. */
  lemma {:induction false} RejectedVersionStops(o: Origin, magic: uint32, f: Frame, g: Frame, w: World)
    requires IsGood(f, magic) && IsGood(g, magic)
    requires IsVersion(Received(f, w)) && IsRejected(o, w.asVersion(f.payload), w)
    ensures var rs := [Read(EncodeFrame(f), w), Read(EncodeFrame(g), w)];
            && AfterReads(o, magic, Line([], []), rs) == Line([Received(f, w)], EncodeFrame(g))
            && NoneEndsInPayload([f, g], 0, Chunks(rs))
  {
    var rs := [Read(EncodeFrame(f), w), Read(EncodeFrame(g), w)];
    ReadOne(o, magic, [], f, w);
    RejectionDisconnects(o, f, w);
    var l := Line([Received(f, w)], []);
    assert AfterRead(o, magic, Line([], []), rs[0]) == l by { assert [] + [Received(f, w)] == [Received(f, w)]; }
    assert AfterReads(o, magic, l, rs[1..]) == AfterRead(o, magic, l, rs[1]) by { assert rs[1..][1..] == []; }
    assert [] + EncodeFrame(g) == EncodeFrame(g);
    assert Chunks(rs) == [EncodeFrame(f), EncodeFrame(g)] by { assert rs[1..][1..] == []; }
    NoneBetween(f, g);
  }

  lemma {:induction false} NoneBetween(f: Frame, g: Frame)
    ensures NoneEndsInPayload([f, g], 0, [EncodeFrame(f), EncodeFrame(g)])
  {
    var chunks: seq<seq<byte>>, last: seq<seq<byte>> := [EncodeFrame(f), EncodeFrame(g)], [EncodeFrame(g)];
    assert chunks[1..] == last && |last[1..]| == 0;
    assert [f, g][1..] == [g] && [g][1..] == [];
    assert !EndsInPayload([g], |EncodeFrame(g)|) && !EndsInPayload([g], 0);
  }
}

/** The version/verack state machine of one connection, message by message. */
module Handshake {
  import opened Bits
  import opened Bytes
  import opened Messages

  const VERSION := "version"
  const VERACK := "verack"
  const NETWORK_MAGICS := {0xD9B4BEF9, 0x0709110B, 0xDAB5BFFA}
  const COMMANDS := {"version", "verack", "addr", "inv", "getdata", "merkleblock", "getblocks", "getheaders", "tx",
                     "headers", "block", "getaddr", "mempool", "ping", "pong", "notfound", "filterload", "filteradd",
                     "filterclear", "reject", "sendheaders", "feefilter", "sendcmpct", "cmpctblock", "getblocktxn",
                     "blocktxn"}
  // The commands that have a handler besides version and verack.
  const HANDLED := {"addr", "inv", "getaddr", "ping", "pong", "reject", "sendheaders", "sendcmpct"}

  const NODE_WITNESS := 8
  const DESIRABLE_SERVICES := 9
  const FORK_SERVICES := 160
  const FORK_DEADLINE := 1533096000
  const MIN_VERSION := 31800
  const BAN_THRESHOLD := 100

  datatype ConnectionState = Initial | Established | Disconnected

  // Who opened the connection, and whether it was asked for by hand.
  datatype Origin = Origin(inbound: bool, manual: bool)

  /** What the handlers know of a connection and change in it. */
  datatype Conn = Conn(state: ConnectionState, version: uint32, services: uint64, startHeight: int32, relayTxes: bool,
                       isWitness: bool, score: int, shouldBan: bool)

  const FRESH := Conn(Initial, 0, 0, 0, false, false, 0, false)

  datatype VersionData = VersionData(protocolVersion: uint32, services: uint64, timestamp: uint64, addrIsValid: bool,
                                     nonce: uint64, startHeight: uint32, relay: bool, checksum: uint32)

  // A message of another kind: the checksum of its data, whether that is valid, and what its handler answers.
  datatype OtherData = OtherData(checksum: uint32, valid: bool, answer: bool)

  /** What a handler sees besides the connection: the clock, the nonces of this node's own outbound connections that
      are still shaking hands, and the decoders of payloads, which may depend on the command and the version. */
  datatype World = World(now: int, ownNonces: set<uint64>, asVersion: seq<byte> -> VersionData, emptyChecksum: uint32,
                         asOther: (string, seq<byte>, uint32) -> OtherData)

  /** What happens to a connection: a frame is handed to dispatch, or something disconnects it. */
  datatype Event = Received(frame: Frame, world: World) | Cut

  // ---------- one step ----------

  // An int compared with the unsigned threshold is taken modulo 2^32.
  function AsUnsigned(n: int): nat { n % 0x1_0000_0000 }

  function Misbehave(c: Conn, howmuch: int): Conn {
    if howmuch == 0 then c
    else
      var score := c.score + howmuch;
      var crosses := AsUnsigned(score) >= BAN_THRESHOLD && AsUnsigned(score - howmuch) < BAN_THRESHOLD;
      c.(score := score, shouldBan := c.shouldBan || crosses)
  }

  predicate HeaderIsValid(h: MessageHeader) {
    h.magic in NETWORK_MAGICS && Command(h) in COMMANDS && h.payloadLength <= MAX_MESSAGE_SIZE
  }

  predicate VersionIsValid(v: VersionData) {
    v.protocolVersion != 0 && v.services != 0 && v.timestamp != 0 && v.addrIsValid && v.nonce != 0
  }

  // !(kDesirableServiceFlags & ~services)
  predicate IsDesirable(services: uint64) {
    And(DESIRABLE_SERVICES, 0xffff_ffff_ffff_ffff - services) == 0
  }

  predicate MarksFork(services: uint64) { And(services, FORK_SERVICES) != 0 }

  /** Why an otherwise good first version message is turned away. */
  predicate IsRejected(o: Origin, v: VersionData, w: World) {
    || (!o.inbound && !o.manual && !IsDesirable(v.services))
    || (MarksFork(v.services) && w.now < FORK_DEADLINE)
    || v.protocolVersion < MIN_VERSION
    || (o.inbound && v.nonce in w.ownNonces)
  }

  function RecvVersion(c: Conn, o: Origin, v: VersionData, w: World): (Conn, bool) {
    if c.version != 0 then (Misbehave(c, 1), false)
    else if !o.inbound && !o.manual && !IsDesirable(v.services) then (c.(state := Disconnected), false)
    else if MarksFork(v.services) && w.now < FORK_DEADLINE then (c.(state := Disconnected), false)
    else if v.protocolVersion < MIN_VERSION then (c.(state := Disconnected), false)
    else if o.inbound && v.nonce in w.ownNonces then (c.(state := Disconnected), true)
    else
      (c.(services := v.services, startHeight := Signed(v.startHeight), relayTxes := v.relay,
          version := v.protocolVersion, isWitness := c.isWitness || And(v.services, NODE_WITNESS) != 0), true)
  }

  /** What a version message does: one more point if one is recorded, else everything it says is recorded, or the
      connection is disconnected; only finding itself at the other end counts as handled. */
  lemma RecvVersionMeans(c: Conn, o: Origin, v: VersionData, w: World)
    ensures var (d, ok) := RecvVersion(c, o, v, w);
            && (c.version != 0 ==> !ok && d == c.(score := c.score + 1, shouldBan := d.shouldBan))
            && (c.version == 0 && d.version == 0 ==>
                  && d == c.(state := Disconnected)
                  && (ok <==>
                        && o.inbound && v.nonce in w.ownNonces && v.protocolVersion >= 31800
                        && (w.now >= 1_533_096_000 || (v.services / 32 % 2 == 0 && v.services / 128 % 2 == 0))))
            && (c.version == 0 && d.version != 0 ==>
                  && ok && d.version == v.protocolVersion && d.services == v.services && d.relayTxes == v.relay
                  && (d.startHeight - v.startHeight) % 0x1_0000_0000 == 0
                  && (d.isWitness <==> c.isWitness || v.services / 8 % 2 == 1)
                  && d.state == c.state && d.score == c.score && d.shouldBan == c.shouldBan)
  {
    ForkBits(v.services);
    WitnessBit(v.services);
  }

  function RecvVerack(c: Conn): (Conn, bool) { (c.(state := Established), true) }

  // Nothing before version, nothing but version and verack before verack.
  predicate MayRun(command: string, c: Conn) {
    (command == VERSION || c.version != 0) && (command == VERSION || command == VERACK || c.state.Established?)
  }

  /** What dispatch does with a frame before any handler: drop it, count it as misbehaviour, or run the handler. */
  datatype Admission = Dropped | OutOfTurn | Runs

  // The frame has a known command that is handled, a matching checksum and valid data.
  predicate IsWellFormed(f: Frame, w: World, version: uint32) {
    var command := Command(f.header);
    HeaderIsValid(f.header) &&
    if command == VERSION then
      f.header.checksum == w.asVersion(f.payload).checksum && VersionIsValid(w.asVersion(f.payload))
    else if command == VERACK then f.header.checksum == w.emptyChecksum
    else
      command in HANDLED && f.header.checksum == w.asOther(command, f.payload, version).checksum &&
      w.asOther(command, f.payload, version).valid
  }

  function Admit(c: Conn, f: Frame, w: World): Admission {
    if !IsWellFormed(f, w, c.version) then Dropped
    else if !MayRun(Command(f.header), c) then OutOfTurn
    else Runs
  }

  function Dispatch(c: Conn, o: Origin, f: Frame, w: World): (Conn, bool) {
    match Admit(c, f, w)
    case Dropped => (c, false)
    case OutOfTurn => (Misbehave(c, 1), false)
    case Runs =>
      var command := Command(f.header);
      if command == VERSION then RecvVersion(c, o, w.asVersion(f.payload), w)
      else if command == VERACK then RecvVerack(c)
      else (c, w.asOther(command, f.payload, c.version).answer)
  }

  function Step(o: Origin, c: Conn, e: Event): Conn {
    match e
    case Received(f, w) => Dispatch(c, o, f, w).0
    case Cut => c.(state := Disconnected)
  }

  // The connection after a history of events, the oldest first.
  function Run(o: Origin, es: seq<Event>): Conn {
    if es == [] then FRESH else Step(o, Run(o, es[..|es| - 1]), es[|es| - 1])
  }

  // ---------- what a history says by itself ----------

  predicate IsVersion(e: Event) {
    e.Received? && Command(e.frame.header) == VERSION && IsWellFormed(e.frame, e.world, 0)
  }

  predicate IsAcceptable(o: Origin, e: Event) {
    IsVersion(e) && !IsRejected(o, e.world.asVersion(e.frame.payload), e.world)
  }

  predicate IsVerack(e: Event) {
    e.Received? && Command(e.frame.header) == VERACK && IsWellFormed(e.frame, e.world, 0)
  }

  /** The position of the first acceptable version message, or the length of the history. */
  function Accepted(o: Origin, es: seq<Event>): (k: nat)
    ensures k <= |es| && (k < |es| ==> IsAcceptable(o, es[k]))
    ensures forall i :: 0 <= i < k ==> !IsAcceptable(o, es[i])
  {
    if es == [] then 0
    else
      var k := Accepted(o, es[..|es| - 1]);
      if k < |es| - 1 || IsAcceptable(o, es[|es| - 1]) then k else |es|
  }

  // The data of the accepted version message.
  function AcceptedData(o: Origin, es: seq<Event>): VersionData
    requires Accepted(o, es) < |es|
  {
    var e := es[Accepted(o, es)];
    e.world.asVersion(e.frame.payload)
  }

  function Recorded(o: Origin, es: seq<Event>): uint32 {
    if Accepted(o, es) < |es| then AcceptedData(o, es).protocolVersion else 0
  }

  // The verack at j completed the handshake, and nothing has disconnected since.
  ghost predicate Completes(o: Origin, es: seq<Event>, j: int) {
    Accepted(o, es) < j < |es| && IsVerack(es[j]) && forall k :: j < k < |es| ==> !es[k].Cut?
  }

  /** After the accepted version came a verack, and no cut since. */
  ghost predicate IsShaken(o: Origin, es: seq<Event>) { exists j :: Completes(o, es, j) }

  /** The next event is an offence: a repeated version, a verack before any version, or another message too early. */
  ghost predicate IsOffence(o: Origin, history: seq<Event>, e: Event) {
    e.Received? && IsWellFormed(e.frame, e.world, Recorded(o, history)) &&
    var command := Command(e.frame.header);
    if command == VERSION then Accepted(o, history) < |history|
    else if command == VERACK then Accepted(o, history) == |history|
    else !IsShaken(o, history)
  }

  ghost function Offences(o: Origin, es: seq<Event>): nat {
    if es == [] then 0
    else
      var history := es[..|es| - 1];
      Offences(o, history) + if IsOffence(o, history, es[|es| - 1]) then 1 else 0
  }

  /** What every history says about the connection it leads to. */
  ghost predicate Explains(o: Origin, es: seq<Event>, c: Conn) {
    && c.version == Recorded(o, es) && (c.version != 0 <==> Accepted(o, es) < |es|)
    && (c.state.Established? <==> IsShaken(o, es))
    && c.score == Offences(o, es) && (c.shouldBan <==> c.score >= 100)
    && if Accepted(o, es) < |es| then
         var v := AcceptedData(o, es);
         c.services == v.services && c.startHeight == Signed(v.startHeight) && c.relayTxes == v.relay &&
         (c.isWitness <==> v.services / 8 % 2 == 1)
       else c.services == 0 && c.startHeight == 0 && !c.relayTxes && !c.isWitness
  }

  // ---------- the proof, by the last event ----------

  lemma StaysShaken(o: Origin, es: seq<Event>)
    requires es != [] && !es[|es| - 1].Cut? && IsShaken(o, es[..|es| - 1])
    ensures IsShaken(o, es)
  {
    var h := es[..|es| - 1];
    var j :| Completes(o, h, j);
    assert forall k :: j < k < |h| ==> es[k] == h[k];
    assert Completes(o, es, j);
  }

  lemma WasShaken(o: Origin, es: seq<Event>)
    requires es != [] && IsShaken(o, es)
    ensures var h, e := es[..|es| - 1], es[|es| - 1];
            !e.Cut? && ((IsVerack(e) && Accepted(o, h) < |h|) || IsShaken(o, h))
  {
    var h := es[..|es| - 1];
    var j :| Completes(o, es, j);
    if j < |h| {
      assert forall k :: j < k < |h| ==> es[k] == h[k];
      assert Completes(o, h, j);
    }
  }

  lemma ShakenStep(o: Origin, es: seq<Event>)
    requires es != []
    ensures var h, e := es[..|es| - 1], es[|es| - 1];
            IsShaken(o, es) <==> !e.Cut? && ((IsVerack(e) && Accepted(o, h) < |h|) || IsShaken(o, h))
  {
    var h, e := es[..|es| - 1], es[|es| - 1];
    if IsShaken(o, es) { WasShaken(o, es); }
    if !e.Cut? && IsVerack(e) && Accepted(o, h) < |h| { assert Completes(o, es, |h|); }
    if !e.Cut? && IsShaken(o, h) { StaysShaken(o, es); }
  }

  // Well-formed version and verack messages are so whatever the recorded version.
  lemma VersionFree(f: Frame, w: World, version: uint32)
    requires Command(f.header) == VERSION || Command(f.header) == VERACK
    ensures IsWellFormed(f, w, version) == IsWellFormed(f, w, 0)
  {
  }

  // One more point on a score that is not negative.
  lemma OnePoint(c: Conn)
    requires c.score >= 0 && (c.shouldBan <==> c.score >= BAN_THRESHOLD)
    ensures var d := Misbehave(c, 1);
            d == c.(score := c.score + 1, shouldBan := d.shouldBan) && (d.shouldBan <==> d.score >= 100)
  {
  }

  lemma ExplainsCut(o: Origin, es: seq<Event>, c: Conn)
    requires es != [] && es[|es| - 1].Cut? && Explains(o, es[..|es| - 1], c)
    ensures Explains(o, es, c.(state := Disconnected))
  {
    ShakenStep(o, es);
    SameData(o, es);
  }

  // The data of the accepted version message stays where it is.
  lemma SameData(o: Origin, es: seq<Event>)
    requires es != []
    ensures var h := es[..|es| - 1];
            Accepted(o, h) < |h| ==> Accepted(o, es) == Accepted(o, h) && AcceptedData(o, es) == AcceptedData(o, h)
  {
  }

  lemma ExplainsVersion(o: Origin, es: seq<Event>, c: Conn)
    requires es != [] && es[|es| - 1].Received? && Command(es[|es| - 1].frame.header) == VERSION
    requires Explains(o, es[..|es| - 1], c)
    ensures Explains(o, es, Step(o, c, es[|es| - 1]))
  {
    var e := es[|es| - 1];
    ShakenStep(o, es);
    SameData(o, es);
    OnePoint(c);
    VersionFree(e.frame, e.world, c.version);
    WitnessBit(e.world.asVersion(e.frame.payload).services);
  }

  lemma ExplainsOther(o: Origin, es: seq<Event>, c: Conn)
    requires es != [] && es[|es| - 1].Received? && Command(es[|es| - 1].frame.header) != VERSION
    requires Explains(o, es[..|es| - 1], c)
    ensures Explains(o, es, Step(o, c, es[|es| - 1]))
  {
    var e := es[|es| - 1];
    ShakenStep(o, es);
    SameData(o, es);
    OnePoint(c);
    if Command(e.frame.header) == VERACK { VersionFree(e.frame, e.world, c.version); }
  }

  /** After every sequence of events: the version is that of the first acceptable version message; the connection is
      established exactly when a verack came after it and nothing disconnected since; the score counts the offences,
      and the ban flag is set exactly when there are a hundred. */
  lemma {:induction false} HistoryExplains(o: Origin, es: seq<Event>)
    ensures Explains(o, es, Run(o, es))
  {
    if es == [] {
    } else {
      HistoryExplains(o, es[..|es| - 1]);
      var c, e := Run(o, es[..|es| - 1]), es[|es| - 1];
      if e.Cut? {
        ExplainsCut(o, es, c);
      } else if Command(e.frame.header) == VERSION {
        ExplainsVersion(o, es, c);
      } else {
        ExplainsOther(o, es, c);
      }
    }
  }

  /** The event at j moved the connection out of its initial state, or would have: something disconnected it, a version
      message was turned away before one was accepted, or a verack came after the accepted version. */
  predicate Touches(o: Origin, es: seq<Event>, j: nat)
    requires j < |es|
  {
    || es[j].Cut?
    || (IsVersion(es[j]) && j < Accepted(o, es))
    || (IsVerack(es[j]) && Accepted(o, es) < j)
  }

  ghost predicate IsUntouched(o: Origin, es: seq<Event>) {
    forall j :: 0 <= j < |es| ==> !Touches(o, es, j)
  }

  lemma UntouchedStep(o: Origin, es: seq<Event>)
    requires es != []
    ensures var h, e := es[..|es| - 1], es[|es| - 1];
            IsUntouched(o, es) <==>
            IsUntouched(o, h) && !e.Cut? && !(IsVersion(e) && Accepted(o, es) == |es|) &&
            !(IsVerack(e) && Accepted(o, h) < |h|)
  {
    var h := es[..|es| - 1];
    forall j | 0 <= j < |h|
      ensures Touches(o, h, j) == Touches(o, es, j)
    {
    }
    assert Touches(o, es, |h|) || !Touches(o, es, |h|);
  }

  /** The connection is in its initial state exactly when nothing has disconnected it, no version message was turned
      away, and no verack completed the handshake. */
  lemma {:induction false} InitialIffUntouched(o: Origin, es: seq<Event>)
    ensures Run(o, es).state.Initial? <==> IsUntouched(o, es)
  {
    if es == [] {
    } else {
      var h, e := es[..|es| - 1], es[|es| - 1];
      InitialIffUntouched(o, h);
      HistoryExplains(o, h);
      UntouchedStep(o, es);
      if e.Received? && (Command(e.frame.header) == VERSION || Command(e.frame.header) == VERACK) {
        VersionFree(e.frame, e.world, Run(o, h).version);
      }
    }
  }

  // ---------- consequences over whole runs ----------

  lemma AcceptedExtends(o: Origin, es: seq<Event>, k: nat)
    requires k <= |es| && Accepted(o, es[..k]) < k
    ensures Accepted(o, es) == Accepted(o, es[..k])
  {
    var a, b := Accepted(o, es), Accepted(o, es[..k]);
    assert forall i :: 0 <= i <= b ==> es[..k][i] == es[i];
  }

  /** Once a version is recorded it never changes, and it is never below the minimum. */
  lemma VersionIsFinal(o: Origin, es: seq<Event>, k: nat)
    requires k <= |es| && Run(o, es[..k]).version != 0
    ensures Run(o, es).version == Run(o, es[..k]).version >= 31800
  {
    HistoryExplains(o, es[..k]);
    HistoryExplains(o, es);
    AcceptedExtends(o, es, k);
    assert es[..k][Accepted(o, es)] == es[Accepted(o, es)];
  }

  /** No handler but version's and verack's runs unless the handshake is complete, and verack's not before version. */
  lemma HandlersInTurn(o: Origin, es: seq<Event>, f: Frame, w: World)
    requires Admit(Run(o, es), f, w).Runs?
    ensures Command(f.header) == VERSION
            || (Command(f.header) == VERACK && Accepted(o, es) < |es|)
            || (Command(f.header) in HANDLED && IsShaken(o, es))
  {
    HistoryExplains(o, es);
  }

  /** A message that is well formed but early or repeated costs one point; nothing else changes the score. */
  lemma ScoreCounts(o: Origin, es: seq<Event>, e: Event)
    ensures Run(o, es + [e]).score == Run(o, es).score + if IsOffence(o, es, e) then 1 else 0
    ensures Run(o, es + [e]).shouldBan && !Run(o, es).shouldBan
            <==> Run(o, es).score == 99 && IsOffence(o, es, e)
  {
    HistoryExplains(o, es);
    HistoryExplains(o, es + [e]);
    assert (es + [e])[..|es|] == es;
  }

  /** The connection is disconnected exactly when something touched it and no verack completed the handshake since. */
  lemma DisconnectedIff(o: Origin, es: seq<Event>)
    ensures Run(o, es).state.Disconnected? <==> !IsUntouched(o, es) && !IsShaken(o, es)
  {
    HistoryExplains(o, es);
    InitialIffUntouched(o, es);
  }

  /** A disconnected connection stays so exactly unless the next event is a well-formed verack after an accepted
      version: being disconnected is not final. */
  lemma StaysDisconnected(o: Origin, es: seq<Event>, e: Event)
    requires Run(o, es).state.Disconnected?
    ensures Run(o, es + [e]).state.Disconnected? <==> !(IsVerack(e) && Accepted(o, es) < |es|)
  {
    HistoryExplains(o, es);
    assert (es + [e])[..|es|] == es;
    if e.Received? && (Command(e.frame.header) == VERSION || Command(e.frame.header) == VERACK) {
      VersionFree(e.frame, e.world, Run(o, es).version);
    }
  }

  /** Such a verack establishes the connection, whatever disconnected it. */
  lemma VerackRevives(o: Origin, e: Event, v: Event)
    requires IsAcceptable(o, e) && IsVerack(v)
    ensures Run(o, [e, Cut]).state.Disconnected? && Run(o, [e, Cut, v]).state.Established?
  {
    var es := [e, Cut, v];
    assert es[..2] == [e, Cut] && es[..2][..1] == [e] && [e][..0] == [];
    VersionFree(v.frame, v.world, Run(o, [e, Cut]).version);
  }

  // The penalties so far, added up.
  function Total(penalties: seq<int>): int {
    if penalties == [] then 0 else Total(penalties[..|penalties| - 1]) + penalties[|penalties| - 1]
  }

  function Penalise(c: Conn, penalties: seq<int>): Conn {
    if penalties == [] then c else Misbehave(Penalise(c, penalties[..|penalties| - 1]), penalties[|penalties| - 1])
  }

  /** Whatever the penalties, the score is their sum, and the ban flag is set exactly when the sum, compared as an
      unsigned number, has reached the threshold at some time; a negative sum counts as reaching it. */
  lemma {:induction false} BanIffReached(penalties: seq<int>)
    ensures Penalise(FRESH, penalties).score == Total(penalties)
    ensures Penalise(FRESH, penalties).shouldBan <==>
            exists i {:trigger Total(penalties[..i])} ::
              0 <= i <= |penalties| && Total(penalties[..i]) % 0x1_0000_0000 >= 100
  {
    var n := |penalties|;
    assert penalties[..n] == penalties;
    if penalties == [] {
      assert forall i {:trigger Total(penalties[..i])} :: 0 <= i <= 0 ==> penalties[..i] == [];
    } else {
      var front := penalties[..n - 1];
      BanIffReached(front);
      assert forall i {:trigger Total(penalties[..i])} :: 0 <= i < n ==> penalties[..i] == front[..i];
      assert forall i {:trigger Total(front[..i])} :: 0 <= i < n ==> front[..i] == penalties[..i];
      assert front[..n - 1] == front;
      assert AsUnsigned(Total(penalties[..n])) == AsUnsigned(Total(penalties));
      assert AsUnsigned(Total(penalties[..n - 1])) == AsUnsigned(Total(front));
    }
  }

  /** For penalties that are not negative and do not overflow, this is when their sum has reached the threshold. */
  lemma BanIffThreshold(penalties: seq<int>)
    requires forall i :: 0 <= i < |penalties| ==> penalties[i] >= 0
    requires Total(penalties) < 0x8000_0000
    ensures var c := Penalise(FRESH, penalties); c.shouldBan <==> c.score >= 100
  {
    BanIffReached(penalties);
    assert penalties[..|penalties|] == penalties;
    forall i {:trigger Total(penalties[..i])} | 0 <= i <= |penalties|
      ensures 0 <= Total(penalties[..i]) <= Total(penalties)
    {
      TotalGrows(penalties, i);
    }
  }

  lemma {:induction false} TotalGrows(penalties: seq<int>, i: nat)
    requires i <= |penalties| && forall k :: 0 <= k < |penalties| ==> penalties[k] >= 0
    ensures 0 <= Total(penalties[..i]) <= Total(penalties)
    decreases |penalties|
  {
    if i == |penalties| {
      assert penalties[..i] == penalties;
      if i > 0 { TotalGrows(penalties[..i - 1], 0); }
    } else {
      TotalGrows(penalties[..|penalties| - 1], i);
      assert penalties[..|penalties| - 1][..i] == penalties[..i];
    }
  }

  /** Services are desirable exactly when the network bit and the witness bit are set. */
  lemma DesirableBits(services: uint64)
    ensures IsDesirable(services) <==> services % 2 == 1 && services / 8 % 2 == 1
  {
    var absent := 0xffff_ffff_ffff_ffff - services;
    NoneOfNine(absent);
    ComplementBits(services, absent, 0xfff_ffff_ffff_ffff);
  }

  // Bits 0 and 3 of a complement.
  lemma ComplementBits(n: nat, m: nat, k: nat)
    requires n + m == 16 * k + 15
    ensures m % 2 == 1 - n % 2 && m / 8 % 2 == 1 - n / 8 % 2
  {
    var q, r := n / 8, n % 8;
    DivUnique(m, 8, 2 * k + 1 - q, 7 - r);
    OppositeParity(m, n, 8 * k + 7);
    OppositeParity(m / 8, q, k);
  }

  lemma OppositeParity(x: nat, y: nat, k: nat)
    requires x + y == 2 * k + 1
    ensures x % 2 == 1 - y % 2
  {
  }

  lemma {:induction false} NoneOfNine(n: nat)
    ensures And(9, n) == 0 <==> n % 2 == 0 && n / 8 % 2 == 0
  {
    AndCommutes(9, n);
    AndDouble(n, 4);
    AndEven(n / 2, 2);
    AndEven(n / 2 / 2, 1);
    AndDouble(n / 2 / 2 / 2, 0);
    assert And(n / 2 / 2 / 2 / 2, 0) == 0 && n / 2 / 2 / 2 == n / 8;
  }

  /** A witness node sets bit 3. */
  lemma WitnessBit(services: uint64)
    ensures And(services, NODE_WITNESS) != 0 <==> services / 8 % 2 == 1
  {
    var k: nat :| k == 3; // not a literal: the shifts of one would be unfolded
    AndShifted(services, 1, k);
    ShrIsDiv(services, k);
    ShlIsMul(1, k);
    ShlIsMul(And(Shr(services, k), 1), k);
    assert Pow2(3) == 8;
    AndMask(services / 8, 1);
  }

  /** Before a version is recorded, a version message is recorded exactly when it is of a known network, not too long,
      intact and filled in, and not turned away: an outbound peer that was not asked for offers services 0 and 3,
      the fork services 5 and 7 are not used before their deadline, the version is at least 31800, and an inbound peer
      is not this node itself. */
  lemma VersionRecordedIff(o: Origin, c: Conn, f: Frame, w: World)
    requires c.version == 0 && Command(f.header) == "version"
    ensures var v := w.asVersion(f.payload);
            Dispatch(c, o, f, w).0.version != 0 <==>
            && (f.header.magic == 0xD9B4BEF9 || f.header.magic == 0x0709110B || f.header.magic == 0xDAB5BFFA)
            && f.header.payloadLength <= 4_000_000 && f.header.checksum == v.checksum
            && v.services != 0 && v.timestamp != 0 && v.addrIsValid && v.nonce != 0 && v.protocolVersion >= 31800
            && (o.inbound || o.manual || (v.services % 2 == 1 && v.services / 8 % 2 == 1))
            && ((v.services / 32 % 2 == 0 && v.services / 128 % 2 == 0) || w.now >= 1_533_096_000)
            && (o.inbound ==> v.nonce !in w.ownNonces)
  {
    DesirableBits(w.asVersion(f.payload).services);
    ForkBits(w.asVersion(f.payload).services);
  }

  // The branches of dispatch besides version and verack, and all of them known commands.
  lemma HandledCommands(command: string)
    ensures command in HANDLED <==>
            || command == "addr" || command == "inv" || command == "getaddr" || command == "ping" || command == "pong"
            || command == "reject" || command == "sendheaders" || command == "sendcmpct"
    ensures command in HANDLED ==> command in COMMANDS && command != VERSION && command != VERACK
  {
  }

  /** The handler of a message that was sent runs exactly when it is of a known network, not too long, and intact, valid
      data for a handled command, and its turn: version at any time, verack once a version is recorded, any other in a
      completed handshake. */
  lemma SentIsAdmitted(c: Conn, magic: uint32, command: string, payload: ByteVector, checksum: uint32, w: World)
    requires IsNarrow(command) && |command| <= 12 && '\0' !in command
    ensures Admit(c, FrameOf(magic, command, payload, checksum), w).Runs? <==>
            && (magic == 0xD9B4BEF9 || magic == 0x0709110B || magic == 0xDAB5BFFA)
            && |payload| % 0x1_0000_0000 <= 4_000_000
            && if command == "version" then
                 checksum == w.asVersion(payload).checksum && VersionIsValid(w.asVersion(payload))
               else if command == "verack" then checksum == w.emptyChecksum && c.version != 0
               else
                 var m := w.asOther(command, payload, c.version);
                 command in HANDLED && checksum == m.checksum && m.valid && c.version != 0 && c.state.Established?
  {
    CommandRoundTrip(command);
  }

  /** The fork bits are bits 5 and 7. */
  lemma ForkBits(services: uint64)
    ensures MarksFork(services) <==> services / 32 % 2 == 1 || services / 128 % 2 == 1
  {
    var k: nat, m: nat :| k == 5 && m == 5; // not literals: the shifts of one would be unfolded
    AndShifted(services, m, k);
    ShrIsDiv(services, k);
    ShlIsMul(m, k);
    ShlIsMul(And(Shr(services, k), m), k);
    assert Pow2(5) == 32;
    LowThree(services / 32);
  }

  lemma {:induction false} LowThree(n: nat)
    ensures And(n, 5) != 0 <==> n % 2 == 1 || n / 4 % 2 == 1
  {
    AndDouble(n, 2);
    AndEven(n / 2, 1);
    AndDouble(n / 2 / 2, 0);
    assert And(n / 2 / 2 / 2, 0) == 0 && n / 2 / 2 == n / 4;
  }
}

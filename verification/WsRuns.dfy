/**
 Whole runs of a WebSocket session: any sequence of calls by the application and the event loop, against
 any environment, and what holds at every point of it.
 */
module WsRuns {
  import opened Arith
  import opened Bits
  import Environment
  import HttpPeer
  import opened IoBuffer
  import opened Ownership
  import opened Wrappers
  import opened WsDropping
  import opened WsFrame
  import opened WsLedger
  import opened WsPending
  import opened WsSession
  import opened WsStreams
  import WsUpgrade

  /** Every run from a new session: all calls keep `Valid`, so the lemmas below hold after each of them. */
  method AnyRun(s: Session)
    requires s.Valid()
    modifies s, s.transport, s.pool`held, s.oracle, s.clock
    ensures s.Valid() && old(s.clock.now) <= s.clock.now
  {
    hide Session.Valid, Session.Core;
    var turns: int := *;
    while turns > 0
      invariant s.Valid() && old(s.clock.now) <= s.clock.now
    {
      var choice: int := *;
      match choice {
        case 0 =>
          var reach: bool := *;
          s.Connect(reach);
        case 1 =>
          var payload: seq<byte>, binary: bool := *, *;
          ValidIsCore(s);
          var _ := s.Send(payload, binary);
        case 2 =>
          var code: Code := *;
          ValidIsCore(s);
          s.Close(code);
        case 3 =>
          var on: bool := *;
          s.SetAutoReconnect(on);
        case 4 => s.CheckTimeouts();
        case _ =>
          var poll: Environment.Phase, reach: bool := *, *;
          s.OnReady(poll, reach);
      }
      turns := turns - 1;
    }
  }

  lemma ValidIsCore(s: Session)
    requires s.Valid()
    ensures s.Core()
  {
  }

  /** Outbound: the bytes accepted on a connection are a prefix of the upgrade request and the accepted
      frames; behind the request a server reads a prefix of the accepted messages, and all of them when an
      open connection has nothing pending. */
  lemma OutboundOfRun(s: Session)
    requires s.Valid()
    ensures AllSendable(s.sent) && s.transport.accepted <= s.upgrade + FrameStream(s.sent)
    ensures s.state.Upgrading? || Reading(s.state) ==> s.upgrade == s.Request()
    ensures var accepted, u := s.transport.accepted, |s.upgrade|;
      |accepted| >= u ==>
        && ServerReads(accepted[u..]) <= Accepted(s.sent)
        && (IsLive(s.state) && s.transport.open && s.count == 0 ==> ServerReads(accepted[u..]) == Accepted(s.sent))
  {
    hide FrameStream, ServerReads, Accepted, Sound, Attached, FrontOf, Trail, Session.BuffersOk, Session.TimersOk,
      Live, Queue;
    ServerSees(s.transport.accepted, s.upgrade, s.sent);
    if IsLive(s.state) && s.transport.open && s.count == 0 {
      assert s.transport.accepted + [] == s.upgrade + FrameStream(s.sent);
    }
  }

  /** What opens the connection: a server reads the upgrade request of a session as a GET of its path, at its host, with
      its key. */
  lemma UpgradeOfRun(s: Session, rest: seq<byte>)
    requires s.Valid() && (s.state.Upgrading? || Reading(s.state))
    requires 13 !in s.cfg.host && 13 !in s.cfg.path && 13 !in s.cfg.secKey
    ensures HttpPeer.ReadBlock(s.upgrade + rest)
      == HttpPeer.Block(HttpPeer.UpgradeLines(s.cfg.host, s.cfg.path, s.cfg.secKey), rest)
  {
    hide Session.Core, Sound, Session.Replied, Attached, FrontOf, HttpPeer.ReadBlock;
    HttpPeer.UpgradeRead(s.cfg.host, s.cfg.path, s.cfg.secKey, rest);
  }

  /** Nothing waits without reason: whatever is pending, the transport took less than it was offered last. */
  lemma PendingOfRun(s: Session)
    requires s.Valid() && s.count > 0
    ensures s.transport.tries != []
    ensures var last := s.transport.tries[|s.transport.tries| - 1]; last.result < |last.offered|
  {
    hide Session.Base, Session.Current, Sound, Session.PhaseOk, Session.Replied;
    assert s.Flushed();
  }

  /** Inbound: however the stream was cut into reads, the session has processed the first frames of everything
      received behind the header block, and all of them while it reads.  What it delivered is what these frames
      say to a session that dropped the message under reassembly where this one did. */
  lemma InboundOfRun(s: Session)
    requires s.Valid()
    ensures |s.rx.header| <= |s.transport.inbound|
    ensures s.rx.frames <= Decode(s.transport.inbound[|s.rx.header|..]).frames
    ensures Reading(s.state) ==> s.rx.frames == Decode(s.transport.inbound[|s.rx.header|..]).frames
    ensures s.rx.delivered == AssembleDrop(s.rx.frames, s.rx.drop).out
    ensures s.state.Open? ==> s.rx.drop.None?
  {
    hide Session.Base, Attached, Decode, FrontOf, Conforming, AssembleDrop, Lossy;
    FramesAreDecoded(s.rx, s.transport.inbound, s.cfg.expected);
    if Reading(s.state) {
      FramesAreAll(s.rx, s.transport.inbound, s.cfg.expected, s.recv.value.bytes, s.frag, s.fragOpcode);
    }
  }

  /** The messages delivered are a prefix of the reference decoding of everything received if and only if nothing
      was dropped or the drop is harmless, and all of it while such a session is open. */
  lemma PrefixOfRun(s: Session)
    requires s.Valid()
    ensures |s.rx.header| <= |s.transport.inbound|
    ensures s.rx.drop.Some? ==> s.rx.drop.value <= |s.rx.frames|
    ensures var all := ClientReads(s.transport.inbound[|s.rx.header|..]);
      && (s.rx.delivered <= all <==> s.rx.drop.None? || Harmless(s.rx.frames, s.rx.drop.value))
      && (s.state.Open? ==> s.rx.delivered == all)
  {
    hide Session.Valid, Decode, AssembleDrop, Assemble, Harmless;
    InboundOfRun(s);
    DropBound(s);
    var fs, all := s.rx.frames, Decode(s.transport.inbound[|s.rx.header|..]).frames;
    AssembleGrows(fs, all[|fs|..]);
    assert fs + all[|fs|..] == all;
    DropNow(fs);
    if s.rx.drop.Some? {
      PrefixIff(fs, s.rx.drop.value);
      SamePrefix(s.rx.delivered, Assemble(fs).out, Assemble(all).out);
    }
  }

  lemma DropBound(s: Session)
    requires s.Valid()
    ensures s.rx.drop.Some? ==> s.rx.drop.value <= |s.rx.frames|
  {
    hide Session.Core, Session.PhaseOk, Session.Replied, Decode, Assembled, Answered, Lossy;
  }

  lemma SamePrefix(a: seq<Message>, b: seq<Message>, c: seq<Message>)
    requires b <= c && |a| <= |b|
    ensures a <= b <==> a <= c
  {
    assert b == c[..|b|];
    if a <= c {
      assert a == c[..|a|] == b[..|a|];
    }
  }

  /** A server that does not interleave messages never sees the difference: what its frames say is delivered, in
      order, and all of it while the session reads. */
  lemma ConformingOfRun(s: Session)
    requires s.Valid() && Conforming(s.rx.frames)
    ensures |s.rx.header| <= |s.transport.inbound|
    ensures var all := ClientReads(s.transport.inbound[|s.rx.header|..]);
      s.rx.delivered <= all && (Reading(s.state) ==> s.rx.delivered == all)
  {
    hide Session.Valid, Decode, AssembleDrop, Assemble, Conforming;
    InboundOfRun(s);
    DropBound(s);
    var fs, all := s.rx.frames, Decode(s.transport.inbound[|s.rx.header|..]).frames;
    AssembleGrows(fs, all[|fs|..]);
    assert fs + all[|fs|..] == all;
    DropNow(fs);
    if s.rx.drop.Some? {
      LastOrNothing(s);
      DropEffect(fs, s.rx.drop.value);
      assert fs[..|fs|] == fs;
    }
  }

  lemma LastOrNothing(s: Session)
    requires s.Valid() && Conforming(s.rx.frames) && s.rx.drop.Some?
    ensures s.rx.drop.value <= |s.rx.frames|
    ensures s.rx.drop.value == |s.rx.frames| || Assemble(s.rx.frames[..s.rx.drop.value]).frag.None?
  {
    hide Session.Core, Session.PhaseOk, Session.Replied, Decode, Assembled, Answered, Conforming;
  }

  function WholeText(b: seq<byte>): Frame { Frame(Header(true, Text, |b|, None), b) }

  function LastPart(c: seq<byte>): Frame { Frame(Header(true, Continuation, |c|, None), c) }

  lemma FourFrames(fs: seq<Frame>, a: Partial, b: seq<byte>, c: seq<byte>, d: seq<byte>)
    requires Assemble(fs).frag == Some(a)
    ensures Assemble(fs + [WholeText(b)] + [LastPart(c)] + [WholeText(d)]).out
      == Assemble(fs).out + [Message(Text, b)] + [Message(a.opcode, a.payload + c)] + [Message(Text, d)]
  {
    AssembleSnoc(fs, WholeText(b));
    AssembleSnoc(fs + [WholeText(b)], LastPart(c));
    AssembleSnoc(fs + [WholeText(b)] + [LastPart(c)], WholeText(d));
  }

  /** The difference shows.  An open session is inside a message when a complete `b`, the rest `c` of that message
      and then `d` have arrived.  On `b` the callback closes the session and the Close frame cannot be written; on
      the next message it does nothing.  Three turns of the frame loop then deliver `b` and `d`, which is not how
      the stream begins. */
  method DroppingRun(s: Session, b: seq<byte>, c: seq<byte>, d: seq<byte>)
    requires s.Parsing() && s.state.Open? && s.frag.Some? && s.Doomed() && s.script == [[CallClose(1000)], []]
    requires |b| < MAX_LENGTH && |c| < MAX_LENGTH && |d| < MAX_LENGTH
    requires s.recv.value.bytes == RawBytes(WholeText(b)) + (RawBytes(LastPart(c)) + RawBytes(WholeText(d)))
    requires Message(Text, d) != Message(s.fragOpcode, s.frag.value.bytes + c)
    modifies s, s.transport, s.pool`held, s.oracle, s.clock
    ensures s.rx.delivered == old(s.rx.delivered) + [Message(Text, b)] + [Message(Text, d)]
    ensures s.state.Closing? && |s.rx.header| <= |s.transport.inbound|
    ensures !(s.rx.delivered <= ClientReads(s.transport.inbound[|s.rx.header|..]))
  {
    hide Session.Core, Session.Current, Session.Replied, Sound, Attached, RawBytes, FrontOf, Session.Doomed, Lossy,
      Conforming, ClientReads, Session.Request;
    ghost var rx0, last := s.rx, RawBytes(WholeText(d));
    ghost var a := Partial(s.fragOpcode, s.frag.value.bytes);
    OpenMeans(s);
    FrontOfRaw(WholeText(b), RawBytes(LastPart(c)) + last);
    s.ParseOne(FrontOf(s.recv.value.bytes));
    assert s.rx.delivered == rx0.delivered + [Message(Text, b)] && s.state.Closing? && s.frag.None?;
    FrontOfRaw(LastPart(c), last);
    s.ParseOne(FrontOf(s.recv.value.bytes));
    assert s.rx.delivered == rx0.delivered + [Message(Text, b)] && s.state.Closing?;
    FrontOfRaw(WholeText(d), []);
    assert last + [] == last;
    s.ParseOne(FrontOf(s.recv.value.bytes));
    FourFrames(rx0.frames, a, b, c, d);
    NotPrefix(s.rx, s.transport.inbound, s.cfg.expected, rx0, a, b, c, d);
  }

  lemma OpenMeans(s: Session)
    requires s.Parsing() && s.state.Open? && s.frag.Some?
    ensures s.rx.drop.None? && s.rx.delivered == Assemble(s.rx.frames).out
    ensures Assemble(s.rx.frames).frag == Some(Partial(s.fragOpcode, s.frag.value.bytes))
  {
    hide Session.Base, Session.Current, Session.Replied, Decode, AssembleDrop, Assemble, Answered, Lossy;
    DropNow(s.rx.frames);
  }

  lemma NotPrefix(r: Received, inbound: seq<byte>, expected: seq<byte>, was: Received, a: Partial, b: seq<byte>,
    c: seq<byte>, d: seq<byte>)
    requires Sound(r, inbound, expected) && was.delivered == Assemble(was.frames).out
    requires Assemble(was.frames).frag == Some(a) && Message(Text, d) != Message(a.opcode, a.payload + c)
    requires r.frames == was.frames + [WholeText(b)] + [LastPart(c)] + [WholeText(d)]
    requires r.delivered == was.delivered + [Message(Text, b)] + [Message(Text, d)]
    ensures |r.header| <= |inbound| && !(r.delivered <= ClientReads(inbound[|r.header|..]))
  {
    hide Assemble, Decode, Sound;
    FramesAreDecoded(r, inbound, expected);
    FourFrames(was.frames, a, b, c, d);
    var all := Decode(inbound[|r.header|..]).frames;
    AssembleGrows(r.frames, all[|r.frames|..]);
    assert r.frames + all[|r.frames|..] == all;
    var n := |was.delivered| + 1;
    assert Assemble(all).out[n] == Assemble(r.frames).out[n] == Message(a.opcode, a.payload + c);
    assert r.delivered[n] == Message(Text, d);
  }

  /** Buffers: no buffer is denoted by two of the session's handles or is also held by others, and those
      handed out are exactly those held by others and by the session. */
  lemma BuffersOfRun(s: Session, id: nat)
    requires s.Valid()
    ensures Handles(s.recv, s.frag, s.Q())[id] <= 1
    ensures id in s.others ==> Handles(s.recv, s.frag, s.Q())[id] == 0
    ensures id in s.pool.held <==> id in s.others || id in Handles(s.recv, s.frag, s.Q())
  {
    hide Sound, Session.PhaseOk, Session.TimersOk, Trail, Session.Current, Prefixed, Handles;
    OwnedMeans(s.pool.held, s.others, Handles(s.recv, s.frag, s.Q()), id);
  }

  /** Transitions: Open is entered only from Upgrading and Upgrading only from Connecting. */
  lemma TransitionsOfRun(s: Session, i: nat)
    requires s.Valid() && 0 < i < |s.trail|
    ensures s.trail[i].Open? ==> s.trail[i - 1].Upgrading?
    ensures s.trail[i].Upgrading? ==> s.trail[i - 1].Connecting?
    ensures s.state == s.trail[|s.trail| - 1]
  {
    hide Session.RingOk, Session.BuffersOk, Session.TimersOk, Session.Current, Prefixed, Session.PhaseOk, Sound;
    assert StepAllowed(s.trail, i);
  }

  /** A session that reads was answered: completely, and as expected unless nothing was expected. */
  lemma AnswerOfRun(s: Session)
    requires s.Valid() && Reading(s.state)
    ensures var v := WsUpgrade.Validate(s.rx.answer, s.cfg.expected);
      && s.rx.answer <= s.transport.inbound && v.complete && s.rx.header == s.rx.answer[..v.headersLen]
      && (v.accepted || s.cfg.expected == [])
  {
    hide Session.Core, WsUpgrade.Validate, Decode, Assemble, FrontOf;
  }

  /** Pings on a connection are at least the interval apart, and between any two of them a Pong was processed. */
  lemma PingsOfRun(s: Session, i: nat, j: nat)
    requires s.Valid() && i < j < |s.beats| && s.beats[i].Asked? && s.beats[j].Asked?
    ensures s.beats[i].at + s.cfg.pingInterval <= s.beats[j].at
    ensures s.beats[j].at + s.cfg.pingInterval <= s.nextPingAt
    ensures exists k :: i < k < j && s.beats[k].Heard?
  {
    hide Session.RingOk, Session.BuffersOk, Session.Current, Prefixed, Sound, Session.PhaseOk, Trail, Session.Replied;
    assert HeardBetween(s.beats, i, j);
  }

  /** Unless the session awaits a Pong, one was processed after every ping; the Pongs heard are those among the
      frames of the stream. */
  lemma PongsOfRun(s: Session, i: nat)
    requires s.Valid() && i < |s.beats| && s.beats[i].Asked? && !s.awaitingPong
    ensures exists k :: i < k < |s.beats| && s.beats[k].Heard?
    ensures Heards(s.beats) == Pongs(s.rx.frames)
  {
    hide Session.RingOk, Session.BuffersOk, Session.Current, Prefixed, Sound, Session.PhaseOk, Trail, Heards, Pongs;
    assert HeardBetween(s.beats, i, |s.beats|);
  }

  /** A Pong was attempted for every Ping received, once, in order and with its payload, and the delay after `k`
      automatic attempts in a row is 2^(k-1) seconds, at most 30. */
  lemma TimersOfRun(s: Session)
    requires s.Valid()
    ensures Replies(s.tried) == Pinged(s.rx.frames)
    ensures s.reconnectDelay == if s.attempts == 0 then 0 else Min(Pow2(s.attempts - 1), 30) * SECOND
  {
    hide Session.RingOk, Session.BuffersOk, Session.Current, Prefixed, Sound, Session.PhaseOk, Trail;
  }

  function Min(a: int, b: int): int { if a < b then a else b }
}

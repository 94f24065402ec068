/**
 Whole byte streams: what the frames a client writes mean to a server, and what the frames a server
 writes mean to a client.  These are the reference decoders of the session theorems.
 */
module WsStreams {
  import opened Bits
  import opened Seqs
  import opened WsFrame
  import opened WsMask
  import opened Wrappers

  datatype Message = Message(opcode: Opcode, payload: seq<byte>)

  // ----- One frame at the front of a stream -----

  datatype Frame = Frame(header: Header, payload: seq<byte>)

  datatype Front = Incomplete | Broken | Whole(frame: Frame, size: nat)

  /** The frame at the front of `s`, its payload exactly as it is on the wire. */
  function FrontOf(s: seq<byte>): (f: Front)
    ensures f.Whole? ==> 2 <= f.size <= |s|
  {
    match Parse(s)
    case NeedMore => Incomplete
    case Violation => Broken
    case Parsed(h, n) =>
      if |s| < n + h.length then Incomplete else Whole(Frame(h, s[n..n + h.length]), n + h.length)
  }

  lemma FrontStable(s: seq<byte>, more: seq<byte>)
    requires !FrontOf(s).Incomplete?
    ensures FrontOf(s + more) == FrontOf(s)
  {
    VerdictStable(s, more);
    if FrontOf(s).Whole? {
      var n, k := Parse(s).size, FrontOf(s).size;
      assert (s + more)[n..k] == s[n..k];
    }
  }

  predicate WellFormed(f: Frame)
  {
    Legal(f.header) && f.header.length == |f.payload|
  }

  /** The bytes of a frame whose payload is sent as it is. */
  function RawBytes(f: Frame): (s: seq<byte>)
    requires WellFormed(f)
  {
    Encode(f.header) + f.payload
  }


  lemma Middle(a: seq<byte>, b: seq<byte>, c: seq<byte>)
    ensures (a + b + c)[|a|..|a| + |b|] == b
  {
  }

  lemma FrontOfRaw(f: Frame, rest: seq<byte>)
    requires WellFormed(f)
    ensures FrontOf(RawBytes(f) + rest) == Whole(f, |RawBytes(f)|)
  {
    EncodeShape(f.header);
    ParseEncode(f.header, f.payload + rest);
    Regroup(Encode(f.header), f.payload, rest);
    Middle(Encode(f.header), f.payload, rest);
  }

  // ----- Client to server -----

  /** A frame the client enqueues: unfragmented, with its own key. */
  datatype OutFrame = OutFrame(opcode: Opcode, payload: seq<byte>, key: seq<byte>)

  predicate Sendable(f: OutFrame)
  {
    && |f.key| == 4
    && |f.payload| < MAX_LENGTH
    && (IsControl(f.opcode) ==> |f.payload| <= 125)
  }

  function FrameBytes(f: OutFrame): (s: seq<byte>)
    requires Sendable(f)
  {
    Encode(Header(true, f.opcode, |f.payload|, Some(f.key))) + Masked(f.payload, f.key, 0)
  }

  predicate AllSendable(fs: seq<OutFrame>)
  {
    forall i :: 0 <= i < |fs| ==> Sendable(fs[i])
  }

  /** All enqueued frames, in order. */
  function FrameStream(fs: seq<OutFrame>): seq<byte>
    requires AllSendable(fs)
  {
    if fs == [] then [] else FrameStream(fs[..|fs| - 1]) + FrameBytes(fs[|fs| - 1])
  }

  function MessageOf(f: OutFrame): Message { Message(f.opcode, f.payload) }

  function Accepted(fs: seq<OutFrame>): seq<Message>
  {
    if fs == [] then [] else Accepted(fs[..|fs| - 1]) + [MessageOf(fs[|fs| - 1])]
  }

  /** What a frame says once its own key is removed. */
  function Unmasked(f: Frame): Message
  {
    Message(f.header.opcode,
      if f.header.key.Some? && |f.header.key.value| == 4 then Masked(f.payload, f.header.key.value, 0) else f.payload)
  }

  /** A server reading a client's byte stream, frame by frame, as far as it goes. */
  function ServerReads(s: seq<byte>): (ms: seq<Message>)
    decreases |s|
  {
    match FrontOf(s)
    case Incomplete => []
    case Broken => []
    case Whole(f, n) => [Unmasked(f)] + ServerReads(s[n..])
  }

  lemma ServerReadsOne(f: OutFrame, rest: seq<byte>)
    requires Sendable(f)
    ensures ServerReads(FrameBytes(f) + rest) == [MessageOf(f)] + ServerReads(rest)
  {
    var raw := Frame(Header(true, f.opcode, |f.payload|, Some(f.key)), Masked(f.payload, f.key, 0));
    FrontOfRaw(raw, rest);
    MaskInvolution(f.payload, f.key, 0);
    assert RawBytes(raw) == FrameBytes(f);
    assert (FrameBytes(f) + rest)[|FrameBytes(f)|..] == rest;
  }

  /** A server recovers exactly the messages that were enqueued, in order. */
  lemma {:induction false} StreamDecodes(fs: seq<OutFrame>, rest: seq<byte>)
    requires AllSendable(fs)
    ensures ServerReads(FrameStream(fs) + rest) == Accepted(fs) + ServerReads(rest)
    decreases |fs|
  {
    hide FrontOf;
    if fs == [] {
      assert FrameStream(fs) + rest == rest;
      assert Accepted(fs) + ServerReads(rest) == ServerReads(rest);
    } else {
      var k := |fs| - 1;
      var init, last := FrameStream(fs[..k]), FrameBytes(fs[k]);
      StreamDecodes(fs[..k], last + rest);
      ServerReadsOne(fs[k], rest);
      Regroup(init, last, rest);
      Regroup(Accepted(fs[..k]), [MessageOf(fs[k])], ServerReads(rest));
    }
  }

  /** Reading a shorter stream yields a prefix of the messages. */
  lemma {:induction false} ServerReadsPrefix(s: seq<byte>, more: seq<byte>)
    ensures ServerReads(s) <= ServerReads(s + more)
    decreases |s|
  {
    hide FrontOf;
    match FrontOf(s)
    case Incomplete =>
    case Broken =>
    case Whole(f, n) =>
      FrontStable(s, more);
      assert (s + more)[n..] == s[n..] + more;
      ServerReadsPrefix(s[n..], more);
  }

  /** Of any prefix of the outbound stream a server reads a prefix of the accepted messages, and of
      the whole stream all of them. */
  lemma OutboundTheorem(fs: seq<OutFrame>, got: seq<byte>)
    requires AllSendable(fs)
    requires got <= FrameStream(fs)
    ensures ServerReads(got) <= Accepted(fs)
    ensures got == FrameStream(fs) ==> ServerReads(got) == Accepted(fs)
  {
    StreamDecodes(fs, []);
    assert FrameStream(fs) + [] == FrameStream(fs);
    assert ServerReads([]) == [];
    assert Accepted(fs) + [] == Accepted(fs);
    var more := FrameStream(fs)[|got|..];
    ServerReadsPrefix(got, more);
    assert got + more == FrameStream(fs);
  }

  // ----- Server to client -----

  datatype Status = Going | Bad | Closed

  /** Frames read so far, the undecoded rest, and whether decoding may go on. */
  datatype Decoded = Decoded(frames: seq<Frame>, rest: seq<byte>, status: Status)

  /** A client reading a server's byte stream: stops at a violation and after a Close frame. */
  function Decode(s: seq<byte>): (d: Decoded)
    decreases |s|
  {
    match FrontOf(s)
    case Incomplete => Decoded([], s, Going)
    case Broken => Decoded([], s, Bad)
    case Whole(f, n) =>
      if f.header.opcode.Close? then Decoded([f], s[n..], Closed)
      else var d := Decode(s[n..]); d.(frames := [f] + d.frames)
  }

  /** A message under reassembly. */
  datatype Partial = Partial(opcode: Opcode, payload: seq<byte>)

  datatype Assembly = Assembly(out: seq<Message>, frag: Option<Partial>)

  const EMPTY: Assembly := Assembly([], None)

  /** One more frame: what is delivered and what is kept for later fragments. */
  function Feed(a: Assembly, f: Frame): Assembly
  {
    match f.header.opcode
    case Text =>
      if f.header.fin then a.(out := a.out + [Message(Text, f.payload)]) else a.(frag := Some(Partial(Text, f.payload)))
    case Binary =>
      if f.header.fin then a.(out := a.out + [Message(Binary, f.payload)]) else a.(frag := Some(Partial(Binary,
        f.payload)))
    case Continuation =>
      if a.frag.None? then a
      else
        var whole := a.frag.value.payload + f.payload;
        if f.header.fin then Assembly(a.out + [Message(a.frag.value.opcode, whole)], None)
        else a.(frag := Some(Partial(a.frag.value.opcode, whole)))
    case _ => a
  }

  function Assemble(fs: seq<Frame>): Assembly
  {
    if fs == [] then EMPTY else Feed(Assemble(fs[..|fs| - 1]), fs[|fs| - 1])
  }

  /** The messages a client delivers for a whole inbound stream. */
  function ClientReads(s: seq<byte>): seq<Message>
  {
    Assemble(Decode(s).frames).out
  }

  // ----- Streams may be cut anywhere -----

  /** Decoding resumes where a frame ended. */
  lemma {:induction false} DecodeResumes(a: seq<byte>, b: seq<byte>)
    requires Decode(a).rest == [] && Decode(a).status == Going
    ensures Decode(a + b) == Decoded(Decode(a).frames + Decode(b).frames, Decode(b).rest, Decode(b).status)
    decreases |a|
  {
    hide FrontOf;
    match FrontOf(a)
    case Incomplete =>
      assert a + b == b;
      assert [] + Decode(b).frames == Decode(b).frames;
    case Broken =>
    case Whole(f, n) =>
      FrontStable(a, b);
      assert (a + b)[n..] == a[n..] + b;
      DecodeResumes(a[n..], b);
      Regroup([f], Decode(a[n..]).frames, Decode(b).frames);
  }

  lemma DecodeEmpty()
    ensures Decode([]) == Decoded([], [], Going)
  {
  }

  /** Consuming one whole frame from the front of the buffer. */
  lemma EatFrame(eaten: seq<byte>, buf: seq<byte>)
    requires Decode(eaten).rest == [] && Decode(eaten).status == Going
    requires FrontOf(buf).Whole?
    ensures var f, n := FrontOf(buf).frame, FrontOf(buf).size;
      Decode(eaten + buf[..n]) ==
        Decoded(Decode(eaten).frames + [f], [], if f.header.opcode.Close? then Closed else Going)
  {
    var f, n := FrontOf(buf).frame, FrontOf(buf).size;
    var one := buf[..n];
    assert FrontOf(one) == Whole(f, n) by {
      FrontOfPrefix(buf);
    }
    assert one[n..] == [];
    DecodeEmpty();
    assert [f] + [] == [f];
    DecodeResumes(eaten, one);
  }

  /** A whole frame at the front is exactly the encoding of what it says. */
  lemma FrontIsRaw(buf: seq<byte>)
    requires FrontOf(buf).Whole?
    ensures WellFormed(FrontOf(buf).frame)
    ensures RawBytes(FrontOf(buf).frame) == buf[..FrontOf(buf).size]
  {
    hide Parse, Encode;
    var f, n, h := FrontOf(buf).frame, FrontOf(buf).size, Parse(buf).size;
    EncodeParse(buf);
    assert buf[..n] == buf[..h] + buf[h..n];
  }

  lemma FrontOfPrefix(buf: seq<byte>)
    requires FrontOf(buf).Whole?
    ensures FrontOf(buf[..FrontOf(buf).size]) == FrontOf(buf)
  {
    var front := FrontOf(buf);
    FrontIsRaw(buf);
    RawAlone(front.frame, buf[..front.size]);
  }

  lemma RawAlone(f: Frame, s: seq<byte>)
    requires WellFormed(f) && s == RawBytes(f)
    ensures FrontOf(s) == Whole(f, |s|)
  {
    FrontOfRaw(f, []);
    assert s == RawBytes(f) + [];
  }

  /** Nothing more to decode until further bytes arrive. */
  lemma DecodeWaits(eaten: seq<byte>, buf: seq<byte>)
    requires Decode(eaten).rest == [] && Decode(eaten).status == Going
    requires FrontOf(buf).Incomplete?
    ensures Decode(eaten + buf) == Decoded(Decode(eaten).frames, buf, Going)
  {
    DecodeResumes(eaten, buf);
    assert Decode(eaten).frames + [] == Decode(eaten).frames;
  }

  /** The frames of a stream are the first frames of every longer stream. */
  lemma {:induction false} DecodePrefix(s: seq<byte>, more: seq<byte>)
    ensures Decode(s).frames <= Decode(s + more).frames
    decreases |s|
  {
    hide FrontOf;
    match FrontOf(s)
    case Incomplete =>
    case Broken =>
    case Whole(f, n) =>
      FrontStable(s, more);
      assert (s + more)[n..] == s[n..] + more;
      if !f.header.opcode.Close? {
        DecodePrefix(s[n..], more);
      }
  }

  lemma {:induction false} AssembleGrows(fs: seq<Frame>, gs: seq<Frame>)
    ensures Assemble(fs).out <= Assemble(fs + gs).out
    decreases |gs|
  {
    if gs == [] {
      assert fs + gs == fs;
    } else {
      var k := |gs| - 1;
      AssembleGrows(fs, gs[..k]);
      assert (fs + gs)[..|fs| + k] == fs + gs[..k];
      assert (fs + gs)[|fs| + k] == gs[k];
    }
  }

  /** More bytes only add messages. */
  lemma ClientReadsPrefix(s: seq<byte>, more: seq<byte>)
    ensures ClientReads(s) <= ClientReads(s + more)
  {
    DecodePrefix(s, more);
    var fs, all := Decode(s).frames, Decode(s + more).frames;
    AssembleGrows(fs, all[|fs|..]);
    assert fs + all[|fs|..] == all;
  }

  // ----- What a conforming server's stream means -----

  /** A server writes legal, unmasked frames. */
  predicate ServerFrame(f: Frame)
  {
    WellFormed(f) && f.header.key.None?
  }

  predicate AllServerFrames(fs: seq<Frame>)
  {
    forall i :: 0 <= i < |fs| ==> ServerFrame(fs[i])
  }

  predicate NoClose(fs: seq<Frame>)
  {
    forall i :: 0 <= i < |fs| ==> !fs[i].header.opcode.Close?
  }

  function ServerStream(fs: seq<Frame>): seq<byte>
    requires AllServerFrames(fs)
  {
    if fs == [] then [] else RawBytes(fs[0]) + ServerStream(fs[1..])
  }

  /** The client's decoder recovers the frames a server wrote. */
  lemma {:induction false} DecodeServerStream(fs: seq<Frame>)
    requires AllServerFrames(fs) && NoClose(fs)
    ensures Decode(ServerStream(fs)) == Decoded(fs, [], Going)
    decreases |fs|
  {
    hide FrontOf, RawBytes, WellFormed;
    if fs == [] {
      DecodeEmpty();
    } else {
      FrontOfRaw(fs[0], ServerStream(fs[1..]));
      assert ServerStream(fs)[|RawBytes(fs[0])|..] == ServerStream(fs[1..]);
      DecodeServerStream(fs[1..]);
      assert [fs[0]] + fs[1..] == fs;
    }
  }

  function IsData(f: Frame): bool { !IsControl(f.header.opcode) }

  function DataOnly(fs: seq<Frame>): seq<Frame>
  {
    if fs == [] then []
    else
      var init := DataOnly(fs[..|fs| - 1]);
      if IsData(fs[|fs| - 1]) then init + [fs[|fs| - 1]] else init
  }

  /** Control frames may come between the fragments of a message. */
  lemma {:induction false} ControlFramesAreInvisible(fs: seq<Frame>)
    ensures Assemble(DataOnly(fs)) == Assemble(fs)
    decreases |fs|
  {
    if fs != [] {
      var k := |fs| - 1;
      ControlFramesAreInvisible(fs[..k]);
      var init := DataOnly(fs[..k]);
      if IsData(fs[k]) {
        assert (init + [fs[k]])[..|init|] == init;
      }
    }
  }

  /** A message cut into one or more chunks. */
  datatype Sent = Sent(opcode: Opcode, chunks: seq<seq<byte>>)

  predicate IsSent(m: Sent) { (m.opcode.Text? || m.opcode.Binary?) && m.chunks != [] }

  function Flatten(chunks: seq<seq<byte>>): seq<byte>
  {
    if chunks == [] then [] else Flatten(chunks[..|chunks| - 1]) + chunks[|chunks| - 1]
  }

  function FragmentHeader(m: Sent, i: nat): Header
    requires i < |m.chunks|
  {
    Header(i == |m.chunks| - 1, if i == 0 then m.opcode else Continuation, |m.chunks[i]|, None)
  }

  function Fragments(m: Sent): (fs: seq<Frame>)
    ensures |fs| == |m.chunks|
  {
    seq(|m.chunks|, i requires 0 <= i < |m.chunks| => Frame(FragmentHeader(m, i), m.chunks[i]))
  }

  function AllFragments(ms: seq<Sent>): seq<Frame>
  {
    if ms == [] then [] else AllFragments(ms[..|ms| - 1]) + Fragments(ms[|ms| - 1])
  }

  function Originals(ms: seq<Sent>): seq<Message>
  {
    if ms == [] then [] else Originals(ms[..|ms| - 1]) + [Message(ms[|ms| - 1].opcode, Flatten(ms[|ms| - 1].chunks))]
  }

  lemma AssembleSnoc(fs: seq<Frame>, f: Frame)
    ensures Assemble(fs + [f]) == Feed(Assemble(fs), f)
  {
    assert (fs + [f])[..|fs|] == fs;
  }

  lemma FragmentsSnoc(fs: seq<Frame>, m: Sent, k: nat)
    requires 0 < k <= |m.chunks|
    ensures fs + Fragments(m)[..k] == (fs + Fragments(m)[..k - 1]) + [Fragments(m)[k - 1]]
    ensures Flatten(m.chunks[..k]) == Flatten(m.chunks[..k - 1]) + m.chunks[k - 1]
  {
    assert m.chunks[..k][..k - 1] == m.chunks[..k - 1];
  }

  /** Midway through a message its first fragments are being collected. */
  lemma {:induction false} AssembleSome(fs: seq<Frame>, m: Sent, k: nat)
    requires IsSent(m) && 0 < k < |m.chunks| && Assemble(fs).frag == None
    ensures Assemble(fs + Fragments(m)[..k]) ==
      Assembly(Assemble(fs).out, Some(Partial(m.opcode, Flatten(m.chunks[..k]))))
    decreases k
  {
    hide Assemble, Flatten;
    FragmentsSnoc(fs, m, k);
    AssembleSnoc(fs + Fragments(m)[..k - 1], Fragments(m)[k - 1]);
    if k == 1 {
      NoFragmentsYet(fs, m);
    } else {
      AssembleSome(fs, m, k - 1);
    }
  }

  lemma NoFragmentsYet(fs: seq<Frame>, m: Sent)
    requires m.chunks != []
    ensures fs + Fragments(m)[..0] == fs
    ensures Flatten(m.chunks[..0]) + m.chunks[0] == m.chunks[0]
  {
    assert m.chunks[..0] == [];
  }

  lemma AssembleMessage(fs: seq<Frame>, m: Sent)
    requires IsSent(m) && Assemble(fs).frag == None
    ensures Assemble(fs + Fragments(m)) == Assembly(Assemble(fs).out + [Message(m.opcode, Flatten(m.chunks))], None)
  {
    hide Assemble, Flatten;
    var k := |m.chunks|;
    FragmentsSnoc(fs, m, k);
    assert Fragments(m)[..k] == Fragments(m) && m.chunks[..k] == m.chunks;
    AssembleSnoc(fs + Fragments(m)[..k - 1], Fragments(m)[k - 1]);
    if k == 1 {
      NoFragmentsYet(fs, m);
    } else {
      AssembleSome(fs, m, k - 1);
    }
  }

  lemma {:induction false} AssembleAll(ms: seq<Sent>)
    requires forall i :: 0 <= i < |ms| ==> IsSent(ms[i])
    ensures Assemble(AllFragments(ms)) == Assembly(Originals(ms), None)
    decreases |ms|
  {
    if ms != [] {
      var k := |ms| - 1;
      AssembleAll(ms[..k]);
      AssembleMessage(AllFragments(ms[..k]), ms[k]);
    }
  }

  /** Whatever a conforming server sends - any messages, cut into any fragments, with control frames
      anywhere in between - the reference decoder returns exactly those messages. */
  lemma InboundTheorem(fs: seq<Frame>, ms: seq<Sent>)
    requires AllServerFrames(fs) && NoClose(fs)
    requires forall i :: 0 <= i < |ms| ==> IsSent(ms[i])
    requires DataOnly(fs) == AllFragments(ms)
    ensures ClientReads(ServerStream(fs)) == Originals(ms)
  {
    DecodeServerStream(fs);
    ControlFramesAreInvisible(fs);
    AssembleAll(ms);
  }
}

/** Frames over datagrams that may be lost, repeated and reordered: the sender cuts each frame into coded
    blocks, the receiver decodes frame after frame. What it hands out is a prefix of what was sent. */
module Session {
  import opened Wire

  const VIDEO_CODEC_HEVC: byte := 1
  const VIDEO_CODEC_H264: byte := 2
  const MAX_PROTECTED_BLOCK_SIZE: nat := 512 * 1024
  const TARGET_PACKET_SIZE: nat := 1150

  predicate Supported(codec: byte) { codec == VIDEO_CODEC_HEVC || codec == VIDEO_CODEC_H264 }

  lemma SupportedCodecs(codec: byte)
    ensures Supported(codec) <==> codec in {1, 2}
  {}

  datatype Frame = Frame(timestamp: nat, keyframe: bool, payload: Bytes, kind: Kind, codec: byte)

  predicate FrameFits(f: Frame) { f.timestamp < U64 && |f.payload| < U64 }

  // ---------- The erasure code, as far as the session relies on it ----------

  datatype Block = Block(id: nat, data: Bytes)

  datatype Outcome = Recovered(message: Bytes) | NeedMore | Failed | Unwritten

  /** accepts: whether a coder can be made for a message of this size; encode: block id of a message;
      decode: what a decoder says after it was fed these blocks; Unwritten when it has enough but cannot
      write the message. */
  datatype Fec = Fec(accepts: (nat, nat) -> bool, encode: (Bytes, nat, nat) -> Bytes,
    decode: (nat, nat, seq<Block>) -> Outcome)

  /** The data begin with block id of the message; what follows is padding. */
  ghost predicate HonestBlock(fec: Fec, message: Bytes, packet: nat, b: Block) {
    b.id < 0x1_0000 && fec.encode(message, packet, b.id) <= b.data && |b.data| <= packet
  }

  ghost predicate AllHonest(fec: Fec, message: Bytes, packet: nat, feed: seq<Block>) {
    forall k :: 0 <= k < |feed| ==> HonestBlock(fec, message, packet, feed[k])
  }

  /** The parameters of a session: what both ends agree on, and how the sender cuts and pads. */
  datatype Setup = Setup(session: nat, fec: Fec, compress: bool, maxDatagram: nat, padding: PaddingMode)

  /** Blocks fill a datagram; a message that would fit one block is cut in two. */
  function PacketFor(maxDatagram: nat, total: nat): (r: nat)
    ensures 1 <= r <= TARGET_PACKET_SIZE
  {
    var room := if maxDatagram < DATA_PREFIX_SIZE then 0 else maxDatagram - DATA_PREFIX_SIZE;
    var target := Min(Max(room, 1), TARGET_PACKET_SIZE);
    if total <= target then Max((total + 1) / 2, 1) else target
  }

  /** Messages of this size are sent. */
  predicate Codable(u: Setup, total: nat) {
    0 < total <= MAX_PROTECTED_BLOCK_SIZE && u.fec.accepts(total, PacketFor(u.maxDatagram, total))
  }

  /** Blocks fit their packet, and a decoder fed with blocks of this message, in any order and with
      repetitions, recovers nothing else. */
  ghost predicate SoundFor(fec: Fec, message: Bytes, packet: nat) {
    && (forall id: nat :: |fec.encode(message, packet, id)| <= packet)
    && (forall feed: seq<Block> :: AllHonest(fec, message, packet, feed) ==>
          OnlyRecovers(fec.decode(|message|, packet, feed), message))
  }

  /** The code is right for all messages that are sent, in packets of the size they are sent in. */
  ghost predicate Sound(u: Setup) {
    forall message: Bytes :: Codable(u, |message|) ==> SoundFor(u.fec, message, PacketFor(u.maxDatagram, |message|))
  }

  predicate OnlyRecovers(o: Outcome, message: Bytes) {
    o.Recovered? ==> o.message == message
  }

  /** What a frame becomes before it is cut into blocks. */
  function Protected(f: Frame, compress: bool): Bytes {
    Protect(Serialize(Envelope(f.timestamp, f.keyframe, f.payload)), f.kind, compress)
  }

  /** Undoing it. */
  function Opened(block: Bytes, kindFlag: byte, codec: byte): Option<Frame> {
    match Restore(block)
    case None => None
    case Some(r) =>
      if KindFlag(r.0) != kindFlag then None
      else
        match Deserialize(r.1)
        case None => None
        case Some(e) => Some(Frame(e.timestamp, e.keyframe, e.payload, r.0, codec))
  }

  /** A block opens to a frame exactly when it begins with that frame protected, and kind and codec are those of the
      header. */
  lemma OpenedIff(block: Bytes, kindFlag: byte, codec: byte, f: Frame)
    ensures Opened(block, kindFlag, codec) == Some(f) <==>
      FrameFits(f) && KindFlag(f.kind) == kindFlag && f.codec == codec
      && (Protected(f, false) <= block || Protected(f, true) <= block)
  {
    hide Serialize, Deserialize;
    var e := Envelope(f.timestamp, f.keyframe, f.payload);
    if block != [] {
      DeserializeIff(block[1..], e);
      forall compress | Protected(f, compress) <= block || Serialize(e) <= block[1..]
        ensures Protected(f, compress) <= block <==> Serialize(e) <= block[1..] && block[0] == Protected(f, compress)[0]
      {
        TagFirst(block, Serialize(e), f.kind, compress);
      }
    }
  }

  lemma TagFirst(block: Bytes, raw: Bytes, kind: Kind, compress: bool)
    requires block != []
    ensures Protect(raw, kind, compress) <= block <==> raw <= block[1..] && block[0] == Protect(raw, kind, compress)[0]
  {
    var p := Protect(raw, kind, compress);
    assert p[1..] == raw && p == [p[0]] + raw && block == [block[0]] + block[1..];
  }

  lemma OpenedProtected(f: Frame, compress: bool)
    requires FrameFits(f)
    ensures Opened(Protected(f, compress), KindFlag(f.kind), f.codec) == Some(f)
  {
    hide Serialize, Deserialize;
    var e := Envelope(f.timestamp, f.keyframe, f.payload);
    RestoreProtect(Serialize(e), f.kind, compress);
    DeserializeSerialize(e);
  }

  // ---------- What was sent ----------

  function MessageOf(u: Setup, f: Frame): Bytes { Protected(f, u.compress) }

  function PacketSize(u: Setup, f: Frame): (r: nat)
    ensures 1 <= r <= TARGET_PACKET_SIZE
  {
    PacketFor(u.maxDatagram, |MessageOf(u, f)|)
  }

  /** Block id of a frame. */
  function BlockOf(u: Setup, f: Frame, seqId: nat): Bytes {
    u.fec.encode(MessageOf(u, f), PacketSize(u, f), seqId)
  }

  /** The frame can be protected and coded. */
  predicate CanSend(u: Setup, f: Frame) {
    Supported(f.codec) && Codable(u, |MessageOf(u, f)|)
  }

  function HeaderOf(u: Setup, stream: nat, index: nat, f: Frame, seqId: nat): Header {
    Header(stream, index, seqId, |MessageOf(u, f)|, PacketSize(u, f), KindFlag(f.kind), f.codec)
  }

  /** A datagram of this frame, padded with any number of zeros. */
  ghost predicate IsPacket(u: Setup, p: Bytes, stream: nat, index: nat, f: Frame, seqId: nat, padding: nat) {
    && seqId < 0x1_0000 && Fits(u.session, HeaderOf(u, stream, index, f, seqId)) && FrameFits(f) && CanSend(u, f)
    && p == Packet(u.session, HeaderOf(u, stream, index, f, seqId), BlockOf(u, f, seqId)) + Zeros(padding)
  }

  ghost predicate PacketAt(u: Setup, p: Bytes, stream: nat, index: nat, f: Frame, seqId: nat) {
    exists padding: nat :: IsPacket(u, p, stream, index, f, seqId, padding)
  }

  // ---------- Sender ----------

  lemma CanSendIs(u: Setup, f: Frame)
    requires CanSend(u, f)
    ensures Supported(f.codec) && u.fec.accepts(|MessageOf(u, f)|, PacketSize(u, f))
    ensures 0 < |MessageOf(u, f)| <= MAX_PROTECTED_BLOCK_SIZE
  {
    hide Protected;
  }

  lemma SoundIs(u: Setup, f: Frame)
    requires Sound(u) && CanSend(u, f)
    ensures SoundFor(u.fec, MessageOf(u, f), PacketSize(u, f))
  {
    hide SoundFor, Codable, Protected;
  }

  lemma BlockFits(u: Setup, f: Frame, id: nat)
    requires Sound(u) && CanSend(u, f)
    ensures |BlockOf(u, f, id)| <= PacketSize(u, f)
  {
    hide Sound, CanSend, Protected;
    SoundIs(u, f);
  }

  /** How many of the first datagrams of a frame can be padded; the next one, if any, makes clamp panic. */
  function Padded(u: Setup, f: Frame, count: nat): (r: nat)
    ensures r <= count
  {
    if count == 0 then 0
    else
      var r := Padded(u, f, count - 1);
      if r == count - 1 && TargetLength(u.padding, DatagramSize(u, f, r)).Some? then count else r
  }

  /** The size of a datagram before it is padded. */
  function DatagramSize(u: Setup, f: Frame, seqId: nat): nat {
    DATA_PREFIX_SIZE + |BlockOf(u, f, seqId)|
  }

  /** And after: padded to the target, as far as a datagram goes, and never cut. */
  function WireLength(u: Setup, f: Frame, seqId: nat): nat {
    var raw := DatagramSize(u, f, seqId);
    match TargetLength(u.padding, raw)
    case None => raw
    case Some(target) => Max(raw, Min(target, u.maxDatagram))
  }

  /** The datagram has its length, and what was added to it are zeros. */
  predicate PaddedRight(u: Setup, f: Frame, seqId: nat, p: Bytes) {
    |p| == WireLength(u, f, seqId) && forall i :: DatagramSize(u, f, seqId) <= i < |p| ==> p[i] == 0
  }

  class Sender {
    const setup: Setup

    var next: map<nat, nat>

    constructor (setup: Setup)
      ensures this.setup == setup && next == map[]
    {
      this.setup, this.next := setup, map[];
    }

    /** The index the next frame of a stream gets. */
    function NextIndex(stream: nat): nat
      reads this
    {
      if stream in next then next[stream] else 0
    }

    /** Datagram seqId of a frame, padded; nothing when clamp panics. */
    method MakeDatagram(stream: nat, index: nat, f: Frame, seqId: nat) returns (p: Option<Bytes>)
      requires Sound(setup) && setup.session < U64 && stream < U32 && index < U64 && FrameFits(f) && seqId < 0x1_0000
      requires CanSend(setup, f)
      ensures p.None? <==> TargetLength(setup.padding, DatagramSize(setup, f, seqId)).None?
      ensures p.Some? ==>
        PacketAt(setup, p.value, stream, index, f, seqId) && PaddedRight(setup, f, seqId, p.value)
    {
      hide Packet, Sound, Protected, CanSend;
      BlockFits(setup, f, seqId);
      CanSendIs(setup, f);
      var block := MessageOf(setup, f);
      var packet := PacketFor(setup.maxDatagram, |block|);
      var data := setup.fec.encode(block, packet, seqId);
      var raw := Packet(setup.session, Header(stream, index, seqId, |block|, packet, KindFlag(f.kind), f.codec), data);
      var padded := TargetLength(setup.padding, |raw|);
      if padded.None? {
        return None;
      }
      var target := Min(padded.value, setup.maxDatagram);
      var zeros := if |raw| < target then target - |raw| else 0;
      assert IsPacket(setup, raw + Zeros(zeros), stream, index, f, seqId, zeros);
      p := Some(raw + Zeros(zeros));
    }

    /** Send a frame as count datagrams, of which the transport takes the first `taken`. When it does not
        take all, or one cannot be padded, the frame counts as not sent, and its index will be used again. */
    method SendFrame(stream: nat, f: Frame, count: nat, taken: nat) returns (ok: bool, out: seq<Bytes>)
      requires Sound(setup) && setup.session < U64 && stream < U32 && FrameFits(f) && count <= 0x1_0000
      requires NextIndex(stream) < U64
      modifies this
      ensures ok <==> CanSend(setup, f) && |out| == count
      ensures |out| == if CanSend(setup, f) then Padded(setup, f, Min(count, taken)) else 0
      ensures forall k: nat :: k < |out| ==>
        PacketAt(setup, out[k], stream, old(NextIndex(stream)), f, k) && PaddedRight(setup, f, k, out[k])
      ensures NextIndex(stream) == if ok then Min(old(NextIndex(stream)) + 1, U64 - 1) else old(NextIndex(stream))
      ensures forall t: nat :: t != stream ==> NextIndex(t) == old(NextIndex(t))
    {
      hide PacketAt, Sound, Protected, PaddedRight, TargetLength, DatagramSize;
      var total := |MessageOf(setup, f)|;
      ok, out := false, [];
      if !Supported(f.codec) {
        return;
      }
      var index := NextIndex(stream);
      next := next[stream := index];
      if total == 0 || total > MAX_PROTECTED_BLOCK_SIZE
        || !setup.fec.accepts(total, PacketFor(setup.maxDatagram, total)) {
        return;
      }
      while |out| < count
        invariant |out| <= count && |out| <= taken && next == old(next)[stream := index]
        invariant Padded(setup, f, |out|) == |out|
        invariant forall k: nat :: k < |out| ==>
          PacketAt(setup, out[k], stream, index, f, k) && PaddedRight(setup, f, k, out[k])
      {
        if |out| == taken {
          return;
        }
        var p := MakeDatagram(stream, index, f, |out|);
        if p.None? {
          PaddedStops(setup, f, |out|, Min(count, taken));
          return;
        }
        out := out + [p.value];
      }
      next := next[stream := Min(index + 1, U64 - 1)];
      ok := true;
    }
  }

  lemma {:induction false} PaddedStops(u: Setup, f: Frame, k: nat, count: nat)
    requires k < count && Padded(u, f, k) == k && TargetLength(u.padding, DatagramSize(u, f, k)).None?
    ensures Padded(u, f, count) == k
  {
    hide TargetLength, DatagramSize;
    if k < count - 1 { PaddedStops(u, f, k, count - 1); }
  }

  // ---------- Receiver ----------

  datatype DecoderState = DecoderState(frame: nat, total: nat, packet: nat, feed: seq<Block>)

  datatype Stream = Stream(next: nat, decoder: Option<DecoderState>)

  datatype Inbound = Inbound(stream: nat, index: nat, frame: Frame)

  /** The frame being decoded is the next one, and only blocks of it are in its decoder. */
  ghost predicate Follows(u: Setup, st: Stream, log: seq<Frame>) {
    st.next <= |log| && (st.decoder.Some? ==> st.next < |log| && Decodes(u, st.decoder.value, st.next, log[st.next]))
  }

  ghost predicate Decodes(u: Setup, d: DecoderState, index: nat, f: Frame) {
    && d.frame == index && d.total == |MessageOf(u, f)| && d.packet == PacketSize(u, f)
    && AllHonest(u.fec, MessageOf(u, f), PacketSize(u, f), d.feed)
  }

  /** One block is read into the decoder of the next frame. The result is the stream afterwards and, when
      the frame is complete, what it contains. */
  function Step(fec: Fec, st: Stream, h: Header, data: Bytes): (Stream, Option<Frame>) {
    var d0 := if st.decoder.Some? && st.decoder.value.frame == h.frame then st.decoder else None;
    if d0.None? && !fec.accepts(h.total, h.packet) then (Stream(st.next, None), None)
    else
      var d := if d0.Some? then d0.value else DecoderState(h.frame, h.total, h.packet, []);
      if data == [] || |data| > d.packet then (Stream(st.next, None), None)
      else
        var d' := d.(feed := d.feed + [Block(h.seqId, data)]);
        match fec.decode(d'.total, d'.packet, d'.feed)
        case NeedMore => (Stream(st.next, Some(d')), None)
        case Failed => (Stream(st.next, None), None)
        case Unwritten => (Stream(st.next, Some(d')), None)
        case Recovered(block) =>
          match Opened(block, h.kind, h.codec)
          case None => (Stream(st.next, None), None)
          case Some(f) => (Stream(Min(st.next + 1, U64 - 1), None), Some(f))
  }

  /** Whatever arrives, a frame comes out only with the next index counted, and it has the kind and codec of the
      header; a block that is empty or too long for its packet ends the decoder. */
  lemma StepAnyway(fec: Fec, st: Stream, h: Header, data: Bytes)
    requires st.next < U64 - 1
    ensures var r := Step(fec, st, h, data);
      && r.0.next == (if r.1.Some? then st.next + 1 else st.next)
      && (r.1.Some? ==> KindFlag(r.1.value.kind) == h.kind && r.1.value.codec == h.codec && r.0.decoder == None)
      && (data == [] ==> r.0.decoder == None && r.1 == None)
      && (|data| > h.packet && (st.decoder.Some? ==> st.decoder.value.packet == h.packet) ==>
            r.0.decoder == None && r.1 == None)
  {
    hide Restore, Deserialize;
  }

  /** The blocks of the next frame that are held. */
  function Held(st: Stream): seq<Block> {
    if st.decoder.Some? then st.decoder.value.feed else []
  }

  /** A block of frame f, the next of the stream, was read. What the decoder says to the blocks held and this one
      decides: f comes out exactly when it recovers, and while it asks for more the block is kept. */
  ghost predicate Advanced(u: Setup, st: Stream, f: Frame, b: Block, after: Stream, out: Option<Frame>) {
    var feed := Held(st) + [b];
    match u.fec.decode(|MessageOf(u, f)|, PacketSize(u, f), feed)
    case Recovered(_) => out == Some(f) && after == Stream(st.next + 1, None)
    case Failed => out == None && after == Stream(st.next, None)
    case _ =>
      var d := DecoderState(st.next, |MessageOf(u, f)|, PacketSize(u, f), feed);
      out == None && after == Stream(st.next, Some(d))
  }

  /** Reading a block of the next frame keeps the stream in step, and what comes out is that frame. */
  lemma StepRight(u: Setup, st: Stream, log: seq<Frame>, stream: nat, seqId: nat, data: Bytes)
    requires Sound(u) && Follows(u, st, log) && st.next < |log| < U64 && FrameFits(log[st.next])
      && CanSend(u, log[st.next])
    requires HonestBlock(u.fec, MessageOf(u, log[st.next]), PacketSize(u, log[st.next]), Block(seqId, data))
    ensures var r := Step(u.fec, st, HeaderOf(u, stream, st.next, log[st.next], seqId), data);
      && Follows(u, r.0, log)
      && (if r.1.Some? then r.1.value == log[st.next] && r.0.next == st.next + 1 else r.0.next == st.next)
      && (data != [] ==> Advanced(u, st, log[st.next], Block(seqId, data), r.0, r.1))
  {
    hide HonestBlock, Opened, Protected, Sound, CanSend;
    var f := log[st.next];
    var h := HeaderOf(u, stream, st.next, f, seqId);
    var block := MessageOf(u, f);
    var d := if st.decoder.Some? then st.decoder.value else DecoderState(h.frame, h.total, h.packet, []);
    var feed := d.feed + [Block(seqId, data)];
    assert AllHonest(u.fec, block, PacketSize(u, f), feed);
    SoundIs(u, f);
    assert OnlyRecovers(u.fec.decode(|block|, PacketSize(u, f), feed), block);
    OpenedProtected(f, u.compress);
    CanSendIs(u, f);
    assert |data| <= PacketSize(u, f) by { HonestFits(u.fec, block, PacketSize(u, f), Block(seqId, data)); }
  }

  lemma HonestFits(fec: Fec, message: Bytes, packet: nat, b: Block)
    requires HonestBlock(fec, message, packet, b)
    ensures |b.data| <= packet
  {}

  class Receiver {
    const setup: Setup
    const maxDatagram: nat

    var sessions: map<nat, map<nat, Stream>>

    constructor (setup: Setup, maxDatagram: nat)
      ensures this.setup == setup && this.maxDatagram == maxDatagram && sessions == map[]
    {
      this.setup, this.maxDatagram, sessions := setup, maxDatagram, map[];
    }

    function MaxPayload(): nat {
      Max(if maxDatagram < DATA_PREFIX_SIZE then 0 else maxDatagram - DATA_PREFIX_SIZE, 1)
    }

    method Put(session: nat, stream: nat, st: Stream)
      requires session in sessions
      modifies this
      ensures StreamIn(sessions, session, stream) == st && session in sessions
      ensures forall t: nat, q: nat :: t != session || q != stream ==>
        StreamIn(sessions, t, q) == old(StreamIn(sessions, t, q))
    {
      var streams: map<nat, Stream> := sessions[session];
      streams := streams[stream := st];
      sessions := sessions[session := streams];
    }

    /** Take one datagram: drop it unless it belongs to the next frame of its stream. */
    method HandleDataPacket(p: Bytes) returns (out: Option<Inbound>)
      modifies this
      ensures Handled(setup.fec, MaxPayload(), p, old(sessions), sessions, out)
    {
      hide Step;
      out := None;
      var parsed := Parse(p);
      if parsed.None? {
        return;
      }
      var session, h := parsed.value.session, parsed.value.header;
      if session !in sessions {
        sessions := sessions[session := map[]];
      }
      var padded := parsed.value.payload;
      if padded == [] {
        return;
      }
      if h.total == 0 || h.total > MAX_PROTECTED_BLOCK_SIZE || h.packet == 0 || h.packet > MaxPayload() {
        return;
      }
      if KindOfFlag(h.kind).None? || !Supported(h.codec) {
        return;
      }
      var payload := padded[..Min(h.packet, |padded|)];
      var st := StreamIn(sessions, session, h.stream);
      Put(session, h.stream, st);
      if h.frame != st.next {
        return;
      }
      var r := Step(setup.fec, st, h, payload);
      Put(session, h.stream, r.0);
      if r.1.Some? {
        out := Some(Inbound(h.stream, h.frame, r.1.value));
      }
    }
  }

  function StreamIn(sessions: map<nat, map<nat, Stream>>, session: nat, stream: nat): Stream {
    if session in sessions && stream in sessions[session] then sessions[session][stream] else Stream(0, None)
  }

  predicate Accepted(h: Header, padded: Bytes, maxPayload: nat) {
    && padded != [] && 0 < h.total <= MAX_PROTECTED_BLOCK_SIZE && 0 < h.packet <= maxPayload
    && KindOfFlag(h.kind).Some? && Supported(h.codec)
  }

  /** What a datagram does: nothing, or one step of its stream. */
  ghost predicate Handled(fec: Fec, maxPayload: nat, p: Bytes, before: map<nat, map<nat, Stream>>,
    after: map<nat, map<nat, Stream>>, out: Option<Inbound>) {
    var parsed := Parse(p);
    if parsed.Some? && Accepted(parsed.value.header, parsed.value.payload, maxPayload)
      && parsed.value.header.frame == StreamIn(before, parsed.value.session, parsed.value.header.stream).next
    then
      var session, h := parsed.value.session, parsed.value.header;
      var padded := parsed.value.payload;
      var r := Step(fec, StreamIn(before, session, h.stream), h, padded[..Min(h.packet, |padded|)]);
      && StreamIn(after, session, h.stream) == r.0
      && (forall t: nat, q: nat :: t != session || q != h.stream ==> StreamIn(after, t, q) == StreamIn(before, t, q))
      && out == if r.1.Some? then Some(Inbound(h.stream, h.frame, r.1.value)) else None
    else
      out == None && forall t: nat, q: nat :: StreamIn(after, t, q) == StreamIn(before, t, q)
  }

  /** An honest datagram read back: its header, and a payload that begins with its block. */
  lemma PacketRead(u: Setup, p: Bytes, stream: nat, index: nat, f: Frame, seqId: nat) returns (payload: Bytes)
    requires Sound(u) && PacketAt(u, p, stream, index, f, seqId)
    ensures FrameFits(f) && CanSend(u, f) && BlockOf(u, f, seqId) <= payload
    ensures Parse(p) == Some(Parsed(u.session, HeaderOf(u, stream, index, f, seqId), payload))
    ensures HonestBlock(u.fec, MessageOf(u, f), PacketSize(u, f),
      Block(seqId, payload[..Min(PacketSize(u, f), |payload|)]))
  {
    hide Protected, Packet, Parse, Sound;
    var padding: nat :| IsPacket(u, p, stream, index, f, seqId, padding);
    var data := BlockOf(u, f, seqId);
    payload := data + Zeros(padding);
    ParsePacket(u.session, HeaderOf(u, stream, index, f, seqId), data, Zeros(padding));
    BlockFits(u, f, seqId);
  }

  /** A datagram of some stream leaves the other streams alone. */
  lemma OtherStreams(u: Setup, maxPayload: nat, p: Bytes, stream: nat, index: nat, f: Frame, seqId: nat,
    before: map<nat, map<nat, Stream>>, after: map<nat, map<nat, Stream>>, out: Option<Inbound>)
    requires Sound(u) && PacketAt(u, p, stream, index, f, seqId) && Handled(u.fec, maxPayload, p, before, after, out)
    ensures forall t: nat :: t != stream ==> StreamIn(after, u.session, t) == StreamIn(before, u.session, t)
    ensures out.Some? ==> out.value.stream == stream
  {
    hide Protected, Step, PacketAt, HonestBlock, Sound;
    var payload := PacketRead(u, p, stream, index, f, seqId);
  }

  /** A datagram of a frame in the log keeps its stream in step, and only the next frame comes out. One of the next
      frame, if its block is not empty and the receiver takes packets of this size, is read into the decoder. */
  lemma HonestStep(u: Setup, maxPayload: nat, p: Bytes, stream: nat, index: nat, log: seq<Frame>, seqId: nat,
    before: map<nat, map<nat, Stream>>, after: map<nat, map<nat, Stream>>, out: Option<Inbound>) returns (data: Bytes)
    requires Sound(u) && index < |log| < U64 && PacketAt(u, p, stream, index, log[index], seqId)
    requires Handled(u.fec, maxPayload, p, before, after, out) && Follows(u, StreamIn(before, u.session, stream), log)
    ensures Follows(u, StreamIn(after, u.session, stream), log)
    ensures var k := StreamIn(before, u.session, stream).next;
      if out.Some? then k < |log| && out.value == Inbound(stream, k, log[k])
        && StreamIn(after, u.session, stream).next == k + 1
      else StreamIn(after, u.session, stream).next == k
    ensures HonestBlock(u.fec, MessageOf(u, log[index]), PacketSize(u, log[index]), Block(seqId, data))
    ensures var st, st' := StreamIn(before, u.session, stream), StreamIn(after, u.session, stream);
      if index != st.next then st' == st && out == None
      else BlockOf(u, log[index], seqId) != [] && PacketSize(u, log[index]) <= maxPayload ==>
        Advanced(u, st, log[index], Block(seqId, data), st', FrameIn(out))
  {
    hide Protected, Step, PacketAt, HonestBlock, Follows, Sound, CanSend;
    var f := log[index];
    var payload := PacketRead(u, p, stream, index, f, seqId);
    var st := StreamIn(before, u.session, stream);
    data := payload[..Min(PacketSize(u, f), |payload|)];
    if index == st.next {
      StepRight(u, st, log, stream, seqId, data);
      CanSendIs(u, f);
      FlagKind(KindFlag(f.kind), f.kind);
    }
  }

  function FrameIn(out: Option<Inbound>): Option<Frame> {
    if out.Some? then Some(out.value.frame) else None
  }

  // ---------- Events ----------

  /** What happens: a frame is sent, or some datagram that was sent arrives, for the first time or again. */
  datatype Event = Send(stream: nat, frame: Frame, count: nat, taken: nat) | Deliver(which: nat)

  predicate EventFits(e: Event) {
    e.Send? ==> e.stream < U32 && FrameFits(e.frame) && e.count <= 0x1_0000
  }

  datatype Outbound = Outbound(stream: nat, frame: Frame)

  /** The frames sent on a stream. */
  function SentOn(sent: seq<Outbound>, stream: nat): seq<Frame> {
    if sent == [] then []
    else
      var rest, last := SentOn(sent[..|sent| - 1], stream), sent[|sent| - 1];
      if last.stream == stream then rest + [last.frame] else rest
  }

  /** The frames handed out for a stream. */
  function EmittedOn(emitted: seq<Inbound>, stream: nat): seq<Frame> {
    if emitted == [] then []
    else
      var rest, last := EmittedOn(emitted[..|emitted| - 1], stream), emitted[|emitted| - 1];
      if last.stream == stream then rest + [last.frame] else rest
  }

  lemma SentMore(sent: seq<Outbound>, o: Outbound, stream: nat)
    ensures SentOn(sent + [o], stream) == if o.stream == stream then SentOn(sent, stream) + [o.frame]
      else SentOn(sent, stream)
  {
    assert (sent + [o])[..|sent|] == sent;
  }

  lemma EmittedMore(emitted: seq<Inbound>, i: Inbound, stream: nat)
    ensures EmittedOn(emitted + [i], stream) == if i.stream == stream then EmittedOn(emitted, stream) + [i.frame]
      else EmittedOn(emitted, stream)
  {
    assert (emitted + [i])[..|emitted|] == emitted;
  }

  // ---------- What a schedule sends ----------

  /** How many datagrams a send puts on the wire. */
  function Wired(u: Setup, e: Event): (r: nat)
    requires e.Send?
    ensures r <= Min(e.count, e.taken)
  {
    if CanSend(u, e.frame) then Padded(u, e.frame, Min(e.count, e.taken)) else 0
  }

  predicate Succeeds(u: Setup, e: Event)
    requires e.Send?
  {
    CanSend(u, e.frame) && Wired(u, e) == e.count
  }

  /** The send takes the next index of the stream: it succeeds, or puts something on the wire. */
  predicate Takes(u: Setup, e: Event, stream: nat) {
    e.Send? && e.stream == stream && (Succeeds(u, e) || Wired(u, e) > 0)
  }

  /** The sends that succeed. */
  function Successes(u: Setup, schedule: seq<Event>): seq<Outbound> {
    if schedule == [] then []
    else
      var rest, e := Successes(u, schedule[..|schedule| - 1]), schedule[|schedule| - 1];
      if e.Send? && Succeeds(u, e) then rest + [Outbound(e.stream, e.frame)] else rest
  }

  /** The frame some of whose datagrams are on the wire under the index the next frame of the stream gets:
      its send was given up half-way, and none has succeeded since. */
  function HalfSent(u: Setup, schedule: seq<Event>, stream: nat): Option<Frame> {
    if schedule == [] then None
    else
      var e := schedule[|schedule| - 1];
      if !Takes(u, e, stream) then HalfSent(u, schedule[..|schedule| - 1], stream)
      else if Succeeds(u, e) then None else Some(e.frame)
  }

  function Trailing(half: Option<Frame>): seq<Frame> {
    match half
    case None => []
    case Some(f) => [f]
  }

  /** The frames of a stream that took an index, in the order of these. */
  function Started(u: Setup, schedule: seq<Event>, stream: nat): seq<Frame> {
    SentOn(Successes(u, schedule), stream) + Trailing(HalfSent(u, schedule, stream))
  }

  /** After a send given up half-way, the next frame to take the stream's index is the same frame again. */
  predicate Steady(u: Setup, schedule: seq<Event>, stream: nat) {
    forall k :: 0 <= k < |schedule| && Takes(u, schedule[k], stream) ==>
      HalfSent(u, schedule[..k], stream) in {None, Some(schedule[k].frame)}
  }

  /** What an event adds. */
  lemma EventAdds(u: Setup, schedule: seq<Event>, e: Event, stream: nat)
    ensures var all, rest := schedule + [e], Successes(u, schedule);
      && Successes(u, all) == (if e.Send? && Succeeds(u, e) then rest + [Outbound(e.stream, e.frame)] else rest)
      && SentOn(Successes(u, all), stream) == (if Takes(u, e, stream) && Succeeds(u, e) then
        SentOn(rest, stream) + [e.frame] else SentOn(rest, stream))
      && HalfSent(u, all, stream) == (if !Takes(u, e, stream) then HalfSent(u, schedule, stream)
        else if Succeeds(u, e) then None else Some(e.frame))
  {
    hide Succeeds, Wired, SentOn;
    assert (schedule + [e])[..|schedule|] == schedule;
    if e.Send? { SentMore(Successes(u, schedule), Outbound(e.stream, e.frame), stream); }
  }

  /** On a steady stream a frame keeps its index. */
  lemma StartedGrows(u: Setup, schedule: seq<Event>, e: Event, stream: nat)
    requires Steady(u, schedule + [e], stream)
    ensures Steady(u, schedule, stream)
    ensures var log := Started(u, schedule + [e], stream);
      && Started(u, schedule, stream) <= log
      && (Takes(u, e, stream) ==> log == SentOn(Successes(u, schedule), stream) + [e.frame])
  {
    hide Succeeds, Wired, SentOn, Successes, HalfSent;
    var all := schedule + [e];
    forall k | 0 <= k < |schedule| && Takes(u, schedule[k], stream)
      ensures HalfSent(u, schedule[..k], stream) in {None, Some(schedule[k].frame)}
    {
      assert all[k] == schedule[k] && all[..k] == schedule[..k];
    }
    EventAdds(u, schedule, e, stream);
    if Takes(u, e, stream) {
      assert all[|schedule|] == e && all[..|schedule|] == schedule;
    }
  }

  /** A caller that after a failed send tries the same frame again until it succeeds. */
  predicate Retries(u: Setup, schedule: seq<Event>, stream: nat) {
    forall k :: 0 <= k < |schedule| && SendsOn(schedule[k], stream) ==>
      LastFailed(u, schedule[..k], stream) in {None, Some(schedule[k].frame)}
  }

  predicate SendsOn(e: Event, stream: nat) { e.Send? && e.stream == stream }

  /** The frame of the last send on the stream, if that failed. */
  function LastFailed(u: Setup, schedule: seq<Event>, stream: nat): Option<Frame> {
    if schedule == [] then None
    else
      var e := schedule[|schedule| - 1];
      if !SendsOn(e, stream) then LastFailed(u, schedule[..|schedule| - 1], stream)
      else if Succeeds(u, e) then None else Some(e.frame)
  }

  lemma {:induction false} RetriesHalf(u: Setup, schedule: seq<Event>, stream: nat)
    requires Retries(u, schedule, stream)
    ensures HalfSent(u, schedule, stream) in {None, LastFailed(u, schedule, stream)}
  {
    hide Succeeds, Wired;
    if schedule != [] {
      var k := |schedule| - 1;
      forall j | 0 <= j < k && SendsOn(schedule[..k][j], stream)
        ensures LastFailed(u, schedule[..k][..j], stream) in {None, Some(schedule[..k][j].frame)}
      {
        assert schedule[..k][j] == schedule[j] && schedule[..k][..j] == schedule[..j];
      }
      RetriesHalf(u, schedule[..k], stream);
    }
  }

  /** Such a caller keeps the stream steady, whatever the transport takes. */
  lemma RetriesSteady(u: Setup, schedule: seq<Event>, stream: nat)
    requires Retries(u, schedule, stream)
    ensures Steady(u, schedule, stream)
  {
    hide Succeeds, Wired, HalfSent, LastFailed;
    forall k | 0 <= k < |schedule| && Takes(u, schedule[k], stream)
      ensures HalfSent(u, schedule[..k], stream) in {None, Some(schedule[k].frame)}
    {
      var front := schedule[..k];
      forall j | 0 <= j < k && SendsOn(front[j], stream)
        ensures LastFailed(u, front[..j], stream) in {None, Some(front[j].frame)}
      {
        assert front[j] == schedule[j] && front[..j] == schedule[..j];
      }
      RetriesHalf(u, front, stream);
      assert SendsOn(schedule[k], stream);
    }
  }

  /** So is a stream on which every send puts all of its datagrams on the wire or none, and nothing trails. */
  lemma {:induction false} UnbrokenSteady(u: Setup, schedule: seq<Event>, stream: nat)
    requires forall k :: 0 <= k < |schedule| && Takes(u, schedule[k], stream) ==> Succeeds(u, schedule[k])
    ensures Steady(u, schedule, stream) && HalfSent(u, schedule, stream) == None
  {
    hide Succeeds, Wired;
    if schedule != [] {
      var k := |schedule| - 1;
      var front := schedule[..k];
      UnbrokenSteady(u, front, stream);
      forall j | 0 <= j < |schedule| && Takes(u, schedule[j], stream)
        ensures HalfSent(u, schedule[..j], stream) in {None, Some(schedule[j].frame)}
      {
        if j < k { assert front[j] == schedule[j] && front[..j] == schedule[..j]; }
      }
    }
  }

  // ---------- What a schedule puts on the wire ----------

  /** A datagram: block seqId of the frame, under an index of its stream. */
  datatype Source = Source(stream: nat, index: nat, frame: Frame, seqId: nat)

  /** The index that the next frame of the stream gets. */
  function NextOf(u: Setup, schedule: seq<Event>, stream: nat): nat {
    |SentOn(Successes(u, schedule), stream)|
  }

  /** The datagrams sent, in order. */
  function Sources(u: Setup, schedule: seq<Event>): seq<Source> {
    if schedule == [] then []
    else
      var front, e := schedule[..|schedule| - 1], schedule[|schedule| - 1];
      Sources(u, front) + if e.Send? then Datagrams(u, front, e) else []
  }

  function Datagrams(u: Setup, schedule: seq<Event>, e: Event): (r: seq<Source>)
    requires e.Send?
    ensures |r| == Wired(u, e)
  {
    seq(Wired(u, e), i requires 0 <= i => Source(e.stream, NextOf(u, schedule, e.stream), e.frame, i))
  }

  lemma SourcesNext(u: Setup, schedule: seq<Event>, e: Event)
    ensures Sources(u, schedule + [e]) == Sources(u, schedule) + if e.Send? then Datagrams(u, schedule, e) else []
  {
    hide Datagrams;
    assert (schedule + [e])[..|schedule|] == schedule;
  }

  /** On a steady stream, what is on the wire under an index is the one frame that has it. */
  lemma {:induction false} SourceStarted(u: Setup, schedule: seq<Event>, k: nat)
    requires k < |Sources(u, schedule)| && Steady(u, schedule, Sources(u, schedule)[k].stream)
    ensures var x := Sources(u, schedule)[k]; var log := Started(u, schedule, x.stream);
      x.index < |log| && log[x.index] == x.frame
  {
    hide Started, Steady, Successes, SentOn, Succeeds, Wired;
    var m := |schedule| - 1;
    var front, e := schedule[..m], schedule[m];
    assert front + [e] == schedule;
    SourcesNext(u, front, e);
    var x := Sources(u, schedule)[k];
    StartedGrows(u, front, e, x.stream);
    if k < |Sources(u, front)| {
      assert Sources(u, front)[k] == x;
      SourceStarted(u, front, k);
    } else {
      var j: nat := k - |Sources(u, front)|;
      assert x == Datagrams(u, front, e)[j] == Source(e.stream, NextOf(u, front, e.stream), e.frame, j);
      assert Takes(u, e, x.stream);
      var sent := SentOn(Successes(u, front), x.stream);
      assert (sent + [e.frame])[|sent|] == e.frame;
    }
  }

  // ---------- When a frame comes out ----------

  datatype Verdict = More | Enough | Lost

  function Ids(feed: seq<Block>): (r: seq<nat>)
    ensures |r| == |feed|
  {
    seq(|feed|, k requires 0 <= k < |feed| => feed[k].id)
  }

  predicate Agreed(o: Outcome, v: Verdict) {
    match v
    case More => o.NeedMore?
    case Enough => o.Recovered?
    case Lost => true
  }

  /** From the size of the message and the ids of the blocks, in the order they arrived, the verdict tells when the
      decoder asks for more and when it recovers; no block is empty. */
  ghost predicate Timely(u: Setup, verdict: (nat, seq<nat>) -> Verdict) {
    forall message: Bytes :: Codable(u, |message|) ==> TimelyFor(u.fec, message, PacketFor(u.maxDatagram, |message|),
      verdict)
  }

  ghost predicate TimelyFor(fec: Fec, message: Bytes, packet: nat, verdict: (nat, seq<nat>) -> Verdict) {
    && (forall id: nat :: id < 0x1_0000 ==> fec.encode(message, packet, id) != [])
    && (forall feed: seq<Block> :: feed != [] && AllHonest(fec, message, packet, feed) ==>
          Agreed(fec.decode(|message|, packet, feed), verdict(|message|, Ids(feed))))
  }

  /** Idle: every frame that took an index has come out. Loading: the last one has not, and blocks with these ids
      are held. Unknown: the verdict was lost, or the next frame came too early. */
  datatype Phase = Idle | Loading(ids: seq<nat>) | Unknown

  /** A datagram arrives on a stream on which count frames took an index. */
  function Arrive(u: Setup, verdict: (nat, seq<nat>) -> Verdict, phase: Phase, count: nat, x: Source): Phase {
    if !phase.Loading? || x.index + 1 != count then phase
    else
      var ids := phase.ids + [x.seqId];
      match verdict(|MessageOf(u, x.frame)|, ids)
      case More => Loading(ids)
      case Enough => Idle
      case Lost => Unknown
  }

  function PhaseOf(u: Setup, verdict: (nat, seq<nat>) -> Verdict, schedule: seq<Event>, stream: nat): Phase {
    if schedule == [] then Idle
    else
      var front, e := schedule[..|schedule| - 1], schedule[|schedule| - 1];
      NextPhase(u, verdict, front, e, stream, PhaseOf(u, verdict, front, stream))
  }

  function NextPhase(u: Setup, verdict: (nat, seq<nat>) -> Verdict, schedule: seq<Event>, e: Event, stream: nat,
    phase: Phase): Phase {
    if Takes(u, e, stream) then
      if HalfSent(u, schedule, stream).Some? then phase else if phase == Idle then Loading([]) else Unknown
    else if e.Deliver? && Sources(u, schedule) != [] then
      var x := Arriving(u, schedule, e);
      if x.stream != stream then phase else Arrive(u, verdict, phase, |Started(u, schedule, stream)|, x)
    else phase
  }

  /** The datagram that arrives. */
  function Arriving(u: Setup, schedule: seq<Event>, e: Event): Source
    requires e.Deliver? && Sources(u, schedule) != []
  {
    Sources(u, schedule)[e.which % |Sources(u, schedule)|]
  }

  lemma PhaseNext(u: Setup, verdict: (nat, seq<nat>) -> Verdict, schedule: seq<Event>, e: Event, stream: nat)
    ensures PhaseOf(u, verdict, schedule + [e], stream)
      == NextPhase(u, verdict, schedule, e, stream, PhaseOf(u, verdict, schedule, stream))
  {
    hide NextPhase;
    assert (schedule + [e])[..|schedule|] == schedule;
  }

  /** The stream is in this phase. */
  ghost predicate InPhase(st: Stream, log: seq<Frame>, phase: Phase) {
    match phase
    case Idle => st.next == |log|
    case Loading(ids) => st.next + 1 == |log| && Ids(Held(st)) == ids
    case Unknown => true
  }

  // ---------- The invariant of a run ----------

  ghost predicate WireIs(u: Setup, wire: seq<Bytes>, done: seq<Event>) {
    && |wire| == |Sources(u, done)|
    && (forall k :: 0 <= k < |wire| ==> FromSource(u, wire[k], Sources(u, done)[k]))
  }

  ghost predicate FromSource(u: Setup, p: Bytes, x: Source) {
    PacketAt(u, p, x.stream, x.index, x.frame, x.seqId)
  }

  /** A stream in order: in step, and handed out so far, which is all that the verdict promises. */
  ghost predicate InOrder(u: Setup, verdict: (nat, seq<nat>) -> Verdict, prompt: bool, done: seq<Event>, stream: nat,
    st: Stream, emitted: seq<Frame>) {
    var log := Started(u, done, stream);
    && Follows(u, st, log) && emitted == log[..st.next]
    && (prompt ==> InPhase(st, log, PhaseOf(u, verdict, done, stream)))
  }

  ghost predicate AllInOrder(sender: Sender, receiver: Receiver, verdict: (nat, seq<nat>) -> Verdict, prompt: bool,
    done: seq<Event>, emitted: seq<Inbound>)
    reads sender, receiver
  {
    forall t: nat :: Steady(sender.setup, done, t) ==>
      InOrder(sender.setup, verdict, prompt, done, t, StreamIn(receiver.sessions, sender.setup.session, t),
        EmittedOn(emitted, t))
  }

  ghost predicate Counted(sender: Sender, done: seq<Event>)
    reads sender
  {
    forall t: nat :: sender.NextIndex(t) == NextOf(sender.setup, done, t)
  }

  /** The verdict holds of the code, and the receiver takes packets as large as the sender makes them. */
  ghost predicate Prompt(u: Setup, verdict: (nat, seq<nat>) -> Verdict, maxReceived: nat) {
    Timely(u, verdict) && u.maxDatagram <= maxReceived
  }

  /** All that stays true during a run. */
  ghost predicate Running(sender: Sender, receiver: Receiver, verdict: (nat, seq<nat>) -> Verdict, wire: seq<Bytes>,
    done: seq<Event>, emitted: seq<Inbound>)
    reads sender, receiver
  {
    && sender.setup == receiver.setup && Sound(sender.setup) && sender.setup.session < U64 && Counted(sender, done)
    && WireIs(sender.setup, wire, done)
    && AllInOrder(sender, receiver, verdict, Prompt(sender.setup, verdict, receiver.maxDatagram), done, emitted)
  }

  /** A send keeps every steady stream in order. */
  lemma OrderSent(u: Setup, verdict: (nat, seq<nat>) -> Verdict, prompt: bool, done: seq<Event>, e: Event, stream: nat,
    st: Stream, emitted: seq<Frame>)
    requires e.Send? && Steady(u, done + [e], stream)
    requires Steady(u, done, stream) ==> InOrder(u, verdict, prompt, done, stream, st, emitted)
    ensures InOrder(u, verdict, prompt, done + [e], stream, st, emitted)
  {
    hide Takes, Succeeds, Steady, Decodes, SentOn, Successes, HalfSent, PhaseOf;
    StartedGrows(u, done, e, stream);
    EventAdds(u, done, e, stream);
    PhaseNext(u, verdict, done, e, stream);
    if Takes(u, e, stream) { SteadyTakes(u, done, e, stream); }
  }

  lemma SteadyTakes(u: Setup, done: seq<Event>, e: Event, stream: nat)
    requires Steady(u, done + [e], stream) && Takes(u, e, stream)
    ensures HalfSent(u, done, stream) in {None, Some(e.frame)}
  {
    hide Takes, HalfSent;
    assert (done + [e])[|done|] == e && (done + [e])[..|done|] == done;
  }

  /** So does an arrival that changes nothing on the stream. */
  lemma OrderKept(u: Setup, verdict: (nat, seq<nat>) -> Verdict, prompt: bool, done: seq<Event>, e: Event, stream: nat,
    st: Stream, emitted: seq<Frame>)
    requires e.Deliver? && Steady(u, done + [e], stream)
    requires Sources(u, done) == [] || Arriving(u, done, e).stream != stream
    requires Steady(u, done, stream) ==> InOrder(u, verdict, prompt, done, stream, st, emitted)
    ensures InOrder(u, verdict, prompt, done + [e], stream, st, emitted)
  {
    hide Steady, Decodes, SentOn, Successes, HalfSent, PhaseOf, Sources;
    StartedGrows(u, done, e, stream);
    EventAdds(u, done, e, stream);
    PhaseNext(u, verdict, done, e, stream);
  }

  /** And one that is read. */
  lemma OrderHandled(u: Setup, verdict: (nat, seq<nat>) -> Verdict, maxReceived: nat, done: seq<Event>, e: Event,
    data: Bytes, st: Stream, st': Stream, emitted: seq<Frame>, out: Option<Frame>)
    requires e.Deliver? && Sources(u, done) != []
    requires var x := Arriving(u, done, e); var log := Started(u, done, x.stream);
      && Steady(u, done + [e], x.stream) && x.index < |log| && log[x.index] == x.frame
      && InOrder(u, verdict, Prompt(u, verdict, maxReceived), done, x.stream, st, emitted) && Follows(u, st', log)
      && (if out.Some? then st.next < |log| && st'.next == st.next + 1 && out.value == log[st.next]
          else st'.next == st.next)
      && CanSend(u, x.frame)
      && HonestBlock(u.fec, MessageOf(u, x.frame), PacketSize(u, x.frame), Block(x.seqId, data))
      && (if x.index != st.next then st' == st && out == None
          else (Prompt(u, verdict, maxReceived) ==> Advanced(u, st, x.frame, Block(x.seqId, data), st', out)))
    ensures InOrder(u, verdict, Prompt(u, verdict, maxReceived), done + [e], Arriving(u, done, e).stream, st',
      if out.Some? then emitted + [out.value] else emitted)
  {
    hide Steady, Decodes, SentOn, Successes, HalfSent, PhaseOf, Sources, Started, Timely, Advanced, CanSend,
      HonestBlock,
      InPhase, Arrive;
    var x := Arriving(u, done, e);
    var log := Started(u, done, x.stream);
    assert Started(u, done + [e], x.stream) == log by { ArrivalAdds(u, done, e, x.stream); }
    PhaseNext(u, verdict, done, e, x.stream);
    assert !Takes(u, e, x.stream);
    if out.Some? { assert log[..st'.next] == log[..st.next] + [log[st.next]]; }
    if Prompt(u, verdict, maxReceived) {
      var phase := PhaseOf(u, verdict, done, x.stream);
      if x.index == st.next {
        PhaseAdvances(u, verdict, phase, log, x, data, st, st', out);
      } else {
        PhaseStays(u, verdict, phase, log, x, st);
      }
    }
  }

  lemma ArrivalAdds(u: Setup, done: seq<Event>, e: Event, stream: nat)
    requires e.Deliver?
    ensures Started(u, done + [e], stream) == Started(u, done, stream)
  {
    hide SentOn, Successes, HalfSent;
    EventAdds(u, done, e, stream);
  }

  lemma PhaseStays(u: Setup, verdict: (nat, seq<nat>) -> Verdict, phase: Phase, log: seq<Frame>, x: Source, st: Stream)
    requires InPhase(st, log, phase) && x.index < |log| && x.index != st.next
    ensures InPhase(st, log, Arrive(u, verdict, phase, |log|, x))
  {}

  /** The verdict on the ids held and this one says what becomes of the stream. */
  lemma PhaseAdvances(u: Setup, verdict: (nat, seq<nat>) -> Verdict, phase: Phase, log: seq<Frame>, x: Source,
    data: Bytes, st: Stream, st': Stream, out: Option<Frame>)
    requires Timely(u, verdict) && InPhase(st, log, phase) && x.index == st.next < |log| && log[x.index] == x.frame
    requires Follows(u, st, log) && Advanced(u, st, x.frame, Block(x.seqId, data), st', out) && CanSend(u, x.frame)
    requires HonestBlock(u.fec, MessageOf(u, x.frame), PacketSize(u, x.frame), Block(x.seqId, data))
    ensures InPhase(st', log, Arrive(u, verdict, phase, |log|, x))
  {
    hide HonestBlock, Protected;
    if phase.Loading? {
      var f := x.frame;
      var feed := Held(st) + [Block(x.seqId, data)];
      assert AllHonest(u.fec, MessageOf(u, f), PacketSize(u, f), feed) by { HeldHonest(u, st, log); }
      assert Ids(feed) == phase.ids + [x.seqId];
      assert TimelyFor(u.fec, MessageOf(u, f), PacketSize(u, f), verdict);
      assert Agreed(u.fec.decode(|MessageOf(u, f)|, PacketSize(u, f), feed), verdict(|MessageOf(u, f)|, Ids(feed)));
    }
  }

  lemma HeldHonest(u: Setup, st: Stream, log: seq<Frame>)
    requires Follows(u, st, log) && st.next < |log|
    ensures AllHonest(u.fec, MessageOf(u, log[st.next]), PacketSize(u, log[st.next]), Held(st))
  {
    hide HonestBlock, Protected;
  }

  lemma {:induction false} SentCount(u: Setup, done: seq<Event>, stream: nat)
    ensures |Started(u, done, stream)| <= |done| + 1 && NextOf(u, done, stream) <= |done|
  {
    hide Takes, Succeeds;
    if done != [] {
      var k := |done| - 1;
      SentCount(u, done[..k], stream);
      EventAdds(u, done[..k], done[k], stream);
      assert done[..k] + [done[k]] == done;
    }
  }

  // ---------- Whole runs ----------

  lemma WireMore(u: Setup, wire: seq<Bytes>, out: seq<Bytes>, done: seq<Event>, e: Event)
    requires WireIs(u, wire, done) && e.Send? && |out| == Wired(u, e)
    requires forall k: nat :: k < |out| ==> PacketAt(u, out[k], e.stream, NextOf(u, done, e.stream), e.frame, k)
    ensures WireIs(u, wire + out, done + [e])
  {
    hide PacketAt, NextOf, Wired;
    SourcesNext(u, done, e);
    var all := Sources(u, done + [e]);
    forall k | 0 <= k < |all| ensures FromSource(u, (wire + out)[k], all[k]) {
      if k < |wire| {
        assert all[k] == Sources(u, done)[k] && FromSource(u, wire[k], all[k]);
      } else {
        var j: nat := k - |wire|;
        assert all[k] == Datagrams(u, done, e)[j] && PacketAt(u, out[j], e.stream, NextOf(u, done, e.stream), e.frame,
          j);
      }
    }
  }

  /** Send one frame. */
  method RunSend(sender: Sender, receiver: Receiver, e: Event, wire: seq<Bytes>,
    ghost verdict: (nat, seq<nat>) -> Verdict, ghost done: seq<Event>, ghost emitted: seq<Inbound>)
    returns (ok: bool, wire': seq<Bytes>)
    requires e.Send? && EventFits(e) && Running(sender, receiver, verdict, wire, done, emitted) && |done| < U64 - 1
    modifies sender
    ensures Running(sender, receiver, verdict, wire', done + [e], emitted) && (ok <==> Succeeds(sender.setup, e))
  {
    hide InOrder, PacketAt, Sound, SentOn, EmittedOn, Successes, Steady, MessageOf, CanSend, Timely, Sources,
      PaddedRight;
    ghost var u := sender.setup;
    SentCount(u, done, e.stream);
    var out;
    ok, out := sender.SendFrame(e.stream, e.frame, e.count, e.taken);
    wire' := wire + out;
    WireMore(u, wire, out, done, e);
    forall t: nat ensures sender.NextIndex(t) == NextOf(u, done + [e], t) { EventAdds(u, done, e, t); }
    forall t: nat | Steady(u, done + [e], t) ensures InOrder(u, verdict, Prompt(u, verdict, receiver.maxDatagram),
      done + [e], t, StreamIn(receiver.sessions, u.session, t), EmittedOn(emitted, t))
    {
      OrderSent(u, verdict, Prompt(u, verdict, receiver.maxDatagram), done, e, t,
        StreamIn(receiver.sessions, u.session, t), EmittedOn(emitted, t));
    }
  }

  /** Let one datagram arrive, if there is one. */
  method RunDeliver(sender: Sender, receiver: Receiver, e: Event, wire: seq<Bytes>,
    ghost verdict: (nat, seq<nat>) -> Verdict, ghost done: seq<Event>, emitted: seq<Inbound>)
    returns (emitted': seq<Inbound>)
    requires e.Deliver? && Running(sender, receiver, verdict, wire, done, emitted) && |done| < U64 - 1
    modifies receiver
    ensures Running(sender, receiver, verdict, wire, done + [e], emitted') && emitted <= emitted'
  {
    hide InOrder, PacketAt, Sound, EmittedOn, Steady, Handled, SentOn, Successes, Timely, Sources, Started;
    ghost var u := sender.setup;
    ghost var before := receiver.sessions;
    var out: Option<Inbound> := None;
    SourcesNext(u, done, e);
    assert Sources(u, done + [e]) == Sources(u, done);
    if wire != [] {
      out := receiver.HandleDataPacket(wire[e.which % |wire|]);
    }
    emitted' := if out.Some? then emitted + [out.value] else emitted;
    forall t: nat ensures sender.NextIndex(t) == NextOf(u, done + [e], t) { EventAdds(u, done, e, t); }
    forall t: nat | Steady(u, done + [e], t) ensures InOrder(u, verdict, Prompt(u, verdict, receiver.maxDatagram),
      done + [e], t, StreamIn(receiver.sessions, u.session, t), EmittedOn(emitted', t))
    {
      if wire != [] && Arriving(u, done, e).stream == t {
        Delivered(u, verdict, receiver.maxDatagram, receiver.MaxPayload(), wire, done, e, before, receiver.sessions,
          out,
          emitted);
      } else {
        if wire != [] {
          var x := Arriving(u, done, e);
          assert FromSource(u, wire[e.which % |wire|], x);
          OtherStreams(u, receiver.MaxPayload(), wire[e.which % |wire|], x.stream, x.index, x.frame, x.seqId, before,
            receiver.sessions, out);
        }
        if out.Some? { EmittedMore(emitted, out.value, t); }
        OrderKept(u, verdict, Prompt(u, verdict, receiver.maxDatagram), done, e, t, StreamIn(before, u.session, t),
          EmittedOn(emitted, t));
      }
    }
  }

  /** The stream of the datagram that arrives. */
  lemma Delivered(u: Setup, verdict: (nat, seq<nat>) -> Verdict, maxReceived: nat, maxPayload: nat, wire: seq<Bytes>,
    done: seq<Event>, e: Event, before: map<nat, map<nat, Stream>>, after: map<nat, map<nat, Stream>>,
    out: Option<Inbound>, emitted: seq<Inbound>)
    requires Sound(u) && WireIs(u, wire, done) && wire != [] && e.Deliver? && |done| < U64 - 1
    requires Handled(u.fec, maxPayload, wire[e.which % |wire|], before, after, out)
    requires u.maxDatagram <= maxReceived ==> forall f: Frame :: PacketSize(u, f) <= maxPayload
    requires var t := Arriving(u, done, e).stream;
      Steady(u, done + [e], t) && (Steady(u, done, t) ==>
        InOrder(u, verdict, Prompt(u, verdict, maxReceived), done, t, StreamIn(before, u.session, t),
          EmittedOn(emitted, t)))
    ensures var t := Arriving(u, done, e).stream;
      InOrder(u, verdict, Prompt(u, verdict, maxReceived), done + [e], t, StreamIn(after, u.session, t),
        EmittedOn(if out.Some? then emitted + [out.value] else emitted, t))
  {
    hide PacketAt, Sound, EmittedOn, Steady, Handled, SentOn, Successes, Timely, Sources, Started, Decodes, Advanced,
      PhaseOf, CanSend, HonestBlock, MessageOf;
    var k := e.which % |wire|;
    var x := Arriving(u, done, e);
    var t := x.stream;
    var log := Started(u, done, t);
    assert FromSource(u, wire[k], x);
    StartedGrows(u, done, e, t);
    SourceStarted(u, done, k);
    SentCount(u, done, t);
    var data := HonestStep(u, maxPayload, wire[k], t, x.index, log, x.seqId, before, after, out);
    var payload := PacketRead(u, wire[k], t, x.index, x.frame, x.seqId);
    if Prompt(u, verdict, maxReceived) { NotEmpty(u, verdict, wire[k], x); }
    if out.Some? { EmittedMore(emitted, out.value, t); }
    OrderHandled(u, verdict, maxReceived, done, e, data, StreamIn(before, u.session, t), StreamIn(after, u.session, t),
      EmittedOn(emitted, t), FrameIn(out));
  }

  lemma NotEmpty(u: Setup, verdict: (nat, seq<nat>) -> Verdict, p: Bytes, x: Source)
    requires Timely(u, verdict) && FromSource(u, p, x) && CanSend(u, x.frame)
    ensures BlockOf(u, x.frame, x.seqId) != []
  {
    hide Protected, Packet, Agreed;
    assert x.seqId < 0x1_0000;
    assert TimelyFor(u.fec, MessageOf(u, x.frame), PacketSize(u, x.frame), verdict);
  }

  /** Any run. On every stream on which a frame given up half-way is the next to be sent again, what was handed out
      is a prefix of what was sent, in order, without gap or repetition; the last frame may be one that was given up
      half-way and is still to be sent again. And when the code keeps to a verdict on the ids that arrive, all of it
      was handed out on every stream on which each frame had enough of its blocks arrive before the next was sent. */
  method Run(setup: Setup, maxReceived: nat, schedule: seq<Event>, ghost verdict: (nat, seq<nat>) -> Verdict)
    returns (sent: seq<Outbound>, emitted: seq<Inbound>)
    requires Sound(setup) && setup.session < U64 && |schedule| < U64 - 1
    requires forall k :: 0 <= k < |schedule| ==> EventFits(schedule[k])
    ensures sent == Successes(setup, schedule)
    ensures forall t: nat :: Steady(setup, schedule, t) ==>
      EmittedOn(emitted, t) <= SentOn(sent, t) + Trailing(HalfSent(setup, schedule, t))
    ensures Prompt(setup, verdict, maxReceived) ==> forall t: nat ::
      Steady(setup, schedule, t) && PhaseOf(setup, verdict, schedule, t) == Idle ==>
        EmittedOn(emitted, t) == SentOn(sent, t) + Trailing(HalfSent(setup, schedule, t))
  {
    hide Succeeds, Wired, Sound, Protected, PhaseOf, Steady, HalfSent, Sources, Prompt, EmittedOn, SentOn;
    var sender := new Sender(setup);
    var receiver := new Receiver(setup, maxReceived);
    var wire: seq<Bytes> := [];
    sent, emitted := [], [];
    StartsRunning(sender, receiver, verdict);
    var k := 0;
    while k < |schedule|
      invariant 0 <= k <= |schedule| && sent == Successes(setup, schedule[..k])
      invariant Running(sender, receiver, verdict, wire, schedule[..k], emitted)
    {
      hide Running, EventFits, Successes;
      var e := schedule[k];
      assert schedule[..k + 1] == schedule[..k] + [e];
      EventAdds(setup, schedule[..k], e, 0);
      if e.Send? {
        var ok;
        ok, wire := RunSend(sender, receiver, e, wire, verdict, schedule[..k], emitted);
        if ok { sent := sent + [Outbound(e.stream, e.frame)]; }
      } else {
        emitted := RunDeliver(sender, receiver, e, wire, verdict, schedule[..k], emitted);
      }
      k := k + 1;
    }
    assert schedule[..k] == schedule;
    EmittedInOrder(sender, receiver, verdict, wire, schedule, emitted);
  }

  lemma StartsRunning(sender: Sender, receiver: Receiver, verdict: (nat, seq<nat>) -> Verdict)
    requires sender.setup == receiver.setup && Sound(sender.setup) && sender.setup.session < U64
    requires sender.next == map[] && receiver.sessions == map[]
    ensures Running(sender, receiver, verdict, [], [], [])
  {
    hide Sound, Timely;
  }

  lemma EmittedInOrder(sender: Sender, receiver: Receiver, verdict: (nat, seq<nat>) -> Verdict, wire: seq<Bytes>,
    done: seq<Event>, emitted: seq<Inbound>)
    requires Running(sender, receiver, verdict, wire, done, emitted)
    ensures forall t: nat :: Steady(sender.setup, done, t) ==> EmittedOn(emitted, t) <= Started(sender.setup, done, t)
    ensures Prompt(sender.setup, verdict, receiver.maxDatagram) ==> forall t: nat ::
      Steady(sender.setup, done, t) && PhaseOf(sender.setup, verdict, done, t) == Idle ==>
        EmittedOn(emitted, t) == Started(sender.setup, done, t)
  {
    hide Sound, EmittedOn, Decodes, Started, Steady, Timely, PhaseOf, Sources;
  }

  // ---------- A network that loses nothing ----------

  function UpTo(k: nat): seq<nat> { seq(k, i requires 0 <= i => i) }

  /** How many blocks a frame has. */
  function BlockCount(u: Setup, f: Frame): nat {
    (|MessageOf(u, f)| + PacketSize(u, f) - 1) / PacketSize(u, f)
  }

  /** A code that recovers a message from its first blocks in order, as many as it has, and not before. */
  ghost predicate Direct(u: Setup, verdict: (nat, seq<nat>) -> Verdict) {
    forall f: Frame, k: nat :: CanSend(u, f) && 1 <= k <= BlockCount(u, f) ==> DirectAt(u, verdict, f, k)
  }

  ghost predicate DirectAt(u: Setup, verdict: (nat, seq<nat>) -> Verdict, f: Frame, k: nat) {
    verdict(|MessageOf(u, f)|, UpTo(k)) == if k < BlockCount(u, f) then More else Enough
  }

  /** Every datagram of a frame arrives, in order, before the next frame is sent. */
  function Lossless(u: Setup, sends: seq<Event>): (r: seq<Event>)
    requires forall k :: 0 <= k < |sends| ==> sends[k].Send?
    ensures forall k :: 0 <= k < |r| && r[k].Send? ==> r[k] in sends
  {
    if sends == [] then []
    else
      var front, e := Lossless(u, sends[..|sends| - 1]), sends[|sends| - 1];
      front + [e] + Arrivals(|Sources(u, front)|, Wired(u, e))
  }

  function Arrivals(from: nat, count: nat): (r: seq<Event>)
    ensures |r| == count && forall i :: 0 <= i < count ==> r[i] == Deliver(from + i)
  {
    seq(count, i requires 0 <= i => Deliver(from + i))
  }

  predicate WholeSend(u: Setup, e: Event) {
    e.Send? && Succeeds(u, e) && e.count >= BlockCount(u, e.frame)
  }

  /** How far the frame is when its first j datagrams have arrived. */
  function PhaseAfter(n: nat, j: nat): Phase { if j < n then Loading(UpTo(j)) else Idle }

  /** Nothing but the phase changes when a datagram arrives. */
  lemma AfterArrival(u: Setup, verdict: (nat, seq<nat>) -> Verdict, done: seq<Event>, which: nat, t: nat)
    requires which < |Sources(u, done)|
    ensures var all, x := done + [Deliver(which)], Sources(u, done)[which];
      && Sources(u, all) == Sources(u, done) && Started(u, all, t) == Started(u, done, t)
      && HalfSent(u, all, t) == HalfSent(u, done, t) && Successes(u, all) == Successes(u, done)
      && PhaseOf(u, verdict, all, t) == (if x.stream != t then PhaseOf(u, verdict, done, t)
        else Arrive(u, verdict, PhaseOf(u, verdict, done, t), |Started(u, done, t)|, x))
  {
    hide PhaseOf, Sources, Started, HalfSent, Successes;
    var e := Deliver(which);
    SourcesNext(u, done, e);
    ArrivalAdds(u, done, e, t);
    EventAdds(u, done, e, t);
    PhaseNext(u, verdict, done, e, t);
    assert which % |Sources(u, done)| == which;
  }

  /** After a whole send, its datagrams arrive one after the other. */
  lemma {:induction false} FrameArrives(u: Setup, verdict: (nat, seq<nat>) -> Verdict, front: seq<Event>, e: Event,
    j: nat, t: nat)
    requires WholeSend(u, e) && Direct(u, verdict) && j <= Wired(u, e)
    requires PhaseOf(u, verdict, front, t) == Idle && HalfSent(u, front, t) == None
    ensures var all := front + [e] + Arrivals(|Sources(u, front)|, j);
      && Sources(u, all) == Sources(u, front) + Datagrams(u, front, e) && HalfSent(u, all, t) == None
      && Successes(u, all) == Successes(u, front) + [Outbound(e.stream, e.frame)]
      && PhaseOf(u, verdict, all, t) == if t == e.stream then PhaseAfter(BlockCount(u, e.frame), j) else Idle
  {
    hide PhaseOf, Sources, HalfSent, Successes, Succeeds, Wired, BlockCount, Direct, SentOn, CanSend, MessageOf;
    var base := |Sources(u, front)|;
    var all := front + [e] + Arrivals(base, j);
    if j == 0 {
      assert all == front + [e];
      SourcesNext(u, front, e);
      EventAdds(u, front, e, t);
      PhaseNext(u, verdict, front, e, t);
      assert BlockCount(u, e.frame) > 0 by { CountPositive(u, e); }
    } else {
      FrameArrives(u, verdict, front, e, j - 1, t);
      var before := front + [e] + Arrivals(base, j - 1);
      assert all == before + [Deliver(base + j - 1)];
      AfterArrival(u, verdict, before, base + j - 1, t);
      assert Sources(u, before)[base + j - 1] == Datagrams(u, front, e)[j - 1];
      if t == e.stream { NextArrives(u, verdict, front, e, before, j); }
    }
  }

  lemma CountPositive(u: Setup, e: Event)
    requires WholeSend(u, e)
    ensures CanSend(u, e.frame) && BlockCount(u, e.frame) > 0
  {
    hide Protected;
    CanSendIs(u, e.frame);
    Rounded(|MessageOf(u, e.frame)|, PacketSize(u, e.frame));
  }

  lemma Rounded(a: nat, b: nat)
    requires a > 0 && b > 0
    ensures (a + b - 1) / b > 0
  {}

  lemma NextArrives(u: Setup, verdict: (nat, seq<nat>) -> Verdict, front: seq<Event>, e: Event, before: seq<Event>,
    j: nat)
    requires WholeSend(u, e) && Direct(u, verdict) && 0 < j <= Wired(u, e) && HalfSent(u, before, e.stream) == None
    requires Successes(u, before) == Successes(u, front) + [Outbound(e.stream, e.frame)]
    ensures var n, x := BlockCount(u, e.frame), Source(e.stream, NextOf(u, front, e.stream), e.frame, j - 1);
      Arrive(u, verdict, PhaseAfter(n, j - 1), |Started(u, before, e.stream)|, x) == PhaseAfter(n, j)
  {
    hide Protected, Successes, SentOn, Wired, CanSend, BlockCount, HalfSent, MessageOf;
    CountPositive(u, e);
    SentMore(Successes(u, front), Outbound(e.stream, e.frame), e.stream);
    assert UpTo(j - 1) + [j - 1] == UpTo(j);
    if j <= BlockCount(u, e.frame) { assert DirectAt(u, verdict, e.frame, j); }
  }

  /** Then every stream is idle at the end. */
  lemma {:induction false} LosslessIdle(u: Setup, verdict: (nat, seq<nat>) -> Verdict, sends: seq<Event>, t: nat)
    requires (forall k :: 0 <= k < |sends| ==> sends[k].Send? && WholeSend(u, sends[k])) && Direct(u, verdict)
    ensures var all := Lossless(u, sends);
      && PhaseOf(u, verdict, all, t) == Idle && HalfSent(u, all, t) == None
      && Successes(u, all) == Outbounds(sends)
  {
    hide WholeSend, Direct, Wired, Datagrams;
    if sends != [] {
      var k: nat := |sends| - 1;
      var front, e := Lossless(u, sends[..k]), sends[k];
      LosslessIdle(u, verdict, sends[..k], t);
      FrameArrives(u, verdict, front, e, Wired(u, e), t);
      assert BlockCount(u, e.frame) <= Wired(u, e) by { WholeWired(u, e); }
    }
  }

  lemma WholeWired(u: Setup, e: Event)
    requires WholeSend(u, e)
    ensures BlockCount(u, e.frame) <= Wired(u, e)
  {
    hide BlockCount, Wired;
  }

  function Outbounds(sends: seq<Event>): seq<Outbound>
    requires forall k :: 0 <= k < |sends| ==> sends[k].Send?
  {
    if sends == [] then []
    else
      var e := sends[|sends| - 1];
      Outbounds(sends[..|sends| - 1]) + [Outbound(e.stream, e.frame)]
  }

  /** So when nothing is lost, every frame is handed out, each once and in order. */
  method RunLossless(u: Setup, maxReceived: nat, sends: seq<Event>, ghost verdict: (nat, seq<nat>) -> Verdict)
    returns (sent: seq<Outbound>, emitted: seq<Inbound>)
    requires Sound(u) && u.session < U64 && Prompt(u, verdict, maxReceived) && Direct(u, verdict)
    requires forall k :: 0 <= k < |sends| ==> sends[k].Send? && WholeSend(u, sends[k]) && EventFits(sends[k])
    requires |Lossless(u, sends)| < U64 - 1
    ensures sent == Outbounds(sends) && forall t: nat :: EmittedOn(emitted, t) == SentOn(sent, t)
  {
    hide Sound, Prompt, Direct, PhaseOf, HalfSent, Successes, EmittedOn, SentOn, BlockCount, Succeeds;
    var schedule := Lossless(u, sends);
    sent, emitted := Run(u, maxReceived, schedule, verdict);
    forall t: nat ensures EmittedOn(emitted, t) == SentOn(sent, t) {
      LosslessIdle(u, verdict, sends, t);
      UnbrokenSteady(u, schedule, t);
    }
    LosslessIdle(u, verdict, sends, 0);
  }

  // ---------- A send that fails part way ----------

  function HalfEncode(message: Bytes, packet: nat, id: nat): Bytes {
    if packet <= |message| <= 2 * packet then (if id == 0 then message[..packet] else if id == 1 then message[packet..]
      else []) else []
  }

  function HalfDecode(total: nat, packet: nat, feed: seq<Block>): Outcome {
    if |feed| == 2 && feed[0].id == 0 && feed[1].id == 1 && packet <= total <= 2 * packet
      && |feed[0].data| == packet && total - packet <= |feed[1].data|
    then Recovered(feed[0].data + feed[1].data[..total - packet]) else NeedMore
  }

  /** A code without redundancy: a message of up to two blocks, recovered from the two in order. */
  const HALVES: Fec := Fec((total, packet) => true, HalfEncode, HalfDecode)

  lemma HalvesSound(u: Setup)
    requires u.fec == HALVES
    ensures Sound(u)
  {
    forall message: Bytes, packet: nat, feed: seq<Block> | AllHonest(HALVES, message, packet, feed)
      ensures OnlyRecovers(HALVES.decode(|message|, packet, feed), message)
    {
      if HalfDecode(|message|, packet, feed).Recovered? {
        assert HonestBlock(HALVES, message, packet, feed[0]) && HonestBlock(HALVES, message, packet, feed[1]);
        assert message == message[..packet] + message[packet..];
      }
    }
  }

  lemma ProtectedSize(f: Frame)
    ensures |Protected(f, false)| == 18 + |f.payload|
  {}

  ghost predicate Halved(u: Setup, f: Frame) {
    && u.fec == HALVES && !u.compress && FrameFits(f) && Supported(f.codec) && |f.payload| <= 100
    && u.maxDatagram == 1200 && u.padding == Disabled
  }

  function HalfOf(f: Frame): nat { (18 + |f.payload| + 1) / 2 }

  lemma HalvedSizes(u: Setup, f: Frame)
    requires Halved(u, f)
    ensures |Protected(f, false)| == 18 + |f.payload| && PacketSize(u, f) == HalfOf(f) && CanSend(u, f)
    ensures Padded(u, f, 2) == 2
  {
    hide Protected;
    ProtectedSize(f);
    assert Padded(u, f, 0) == 0 && Padded(u, f, 1) == 1;
  }

  /** Reading the two halves of a frame hands it out. */
  lemma FirstHalf(u: Setup, p: Bytes, f: Frame, s0: map<nat, map<nat, Stream>>, s1: map<nat, map<nat, Stream>>,
    out: Option<Inbound>)
    requires Halved(u, f) && PacketAt(u, p, 0, 0, f, 0) && StreamIn(s0, u.session, 0) == Stream(0, None)
    requires Handled(HALVES, 1167, p, s0, s1, out)
    ensures |Protected(f, false)| == 18 + |f.payload| && out == None
    ensures StreamIn(s1, u.session, 0)
      == Stream(0, Some(DecoderState(0, |Protected(f, false)|, HalfOf(f),
        [Block(0, Protected(f, false)[..HalfOf(f)])])))
  {
    hide Protected, Packet, Parse, Opened;
    HalvedSizes(u, f);
    var block, packet := Protected(f, false), HalfOf(f);
    var i: nat :| IsPacket(u, p, 0, 0, f, 0, i);
    ParsePacket(u.session, HeaderOf(u, 0, 0, f, 0), block[..packet], Zeros(i));
    var d := block[..packet] + Zeros(i);
    assert d[..Min(packet, |d|)] == block[..packet];
    var none: seq<Block> := [];
    assert none + [Block(0, block[..packet])] == [Block(0, block[..packet])];
  }

  lemma SecondHalf(u: Setup, p: Bytes, f: Frame, s1: map<nat, map<nat, Stream>>, s2: map<nat, map<nat, Stream>>,
    out: Option<Inbound>)
    requires Halved(u, f) && PacketAt(u, p, 0, 0, f, 1) && |Protected(f, false)| == 18 + |f.payload|
    requires StreamIn(s1, u.session, 0)
      == Stream(0, Some(DecoderState(0, |Protected(f, false)|, HalfOf(f),
        [Block(0, Protected(f, false)[..HalfOf(f)])])))
    requires Handled(HALVES, 1167, p, s1, s2, out)
    ensures out == Some(Inbound(0, 0, f))
  {
    hide Protected, Packet, Parse, Opened;
    HalvedSizes(u, f);
    var block, packet := Protected(f, false), HalfOf(f);
    var j: nat :| IsPacket(u, p, 0, 0, f, 1, j);
    ParsePacket(u.session, HeaderOf(u, 0, 0, f, 1), block[packet..], Zeros(j));
    var d := block[packet..] + Zeros(j);
    var e := d[..Min(packet, |d|)];
    assert e[..|block| - packet] == block[packet..];
    assert block[..packet] + block[packet..] == block;
    assert [Block(0, block[..packet])] + [Block(1, e)] == [Block(0, block[..packet]), Block(1, e)];
    OpenedProtected(f, false);
  }

  /** The run that goes wrong: frame f fails after two datagrams, frame g is then sent under the same index,
      and the receiver hands out f, which counts as not sent. The stream is not steady unless f is g. */
  method IndexUsedTwice(f: Frame, g: Frame, session: nat)
    returns (schedule: seq<Event>, sent: seq<Outbound>, emitted: seq<Inbound>)
    requires FrameFits(f) && FrameFits(g) && Supported(f.codec) && Supported(g.codec) && session < U64
    requires |f.payload| <= 100 && |g.payload| <= 100
    ensures sent == [Outbound(0, g)] && emitted == [Inbound(0, 0, f)]
    ensures var u := Setup(session, HALVES, false, 1200, Disabled);
      sent == Successes(u, schedule) && (f != g ==> !Steady(u, schedule, 0))
    ensures f != g ==> !(EmittedOn(emitted, 0) <= SentOn(sent, 0))
  {
    hide Sound, Protected, Packet, Handled, Padded, PacketAt, PaddedRight, Successes, Steady;
    var u := Setup(session, HALVES, false, 1200, Disabled);
    HalvesSound(u);
    HalvedSizes(u, f);
    HalvedSizes(u, g);
    var sender := new Sender(u);
    var receiver := new Receiver(u, 1200);
    var failed, first := sender.SendFrame(0, f, 3, 2);
    var ok, rest := sender.SendFrame(0, g, 2, 2);
    schedule, sent, emitted := [Send(0, f, 3, 2), Send(0, g, 2, 2)], [], [];
    if ok { sent := [Outbound(0, g)]; }
    ghost var s0 := receiver.sessions;
    var one := receiver.HandleDataPacket(first[0]);
    ghost var s1 := receiver.sessions;
    var two := receiver.HandleDataPacket(first[1]);
    FirstHalf(u, first[0], f, s0, s1, one);
    SecondHalf(u, first[1], f, s1, receiver.sessions, two);
    if two.Some? { emitted := [two.value]; }
    TwiceUnsteady(u, f, g);
    assert EmittedOn(emitted, 0) == [f] && SentOn(sent, 0) == [g] by {
      assert emitted[..0] == [] && sent[..0] == [];
    }
    assert [f] <= [g] ==> [f][0] == [g][0];
  }

  lemma TwiceUnsteady(u: Setup, f: Frame, g: Frame)
    requires Halved(u, f) && Halved(u, g)
    ensures var schedule := [Send(0, f, 3, 2), Send(0, g, 2, 2)];
      Successes(u, schedule) == [Outbound(0, g)] && (f != g ==> !Steady(u, schedule, 0))
  {
    hide CanSend, Padded, Halved;
    HalvedSizes(u, f);
    HalvedSizes(u, g);
    var one := [Send(0, f, 3, 2)];
    EventAdds(u, [], one[0], 0);
    EventAdds(u, one, Send(0, g, 2, 2), 0);
    assert [] + one == one && one + [Send(0, g, 2, 2)] == [Send(0, f, 3, 2), Send(0, g, 2, 2)];
    assert [Send(0, f, 3, 2), Send(0, g, 2, 2)][..1] == one;
    assert Takes(u, Send(0, g, 2, 2), 0);
  }
}

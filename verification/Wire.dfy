/** The bytes of a media datagram: geometry header, frame envelope and pipeline envelope, and that reading
    gives back what was written, whatever zeros were appended as padding. */
module Wire {

  type byte = x: int | 0 <= x < 256

  type Bytes = seq<byte>

  datatype Option<T> = None | Some(value: T)

  // ---------- Little-endian numbers ----------

  function Range(k: nat): (r: nat)
    ensures r > 0
  {
    if k == 0 then 1 else 256 * Range(k - 1)
  }

  function Le(n: nat, k: nat): (r: Bytes)
    ensures |r| == k
  {
    if k == 0 then [] else [n % 256] + Le(n / 256, k - 1)
  }

  function FromLe(b: Bytes): nat {
    if b == [] then 0 else b[0] + 256 * FromLe(b[1..])
  }

  lemma {:induction false} FromLeLe(n: nat, k: nat)
    requires n < Range(k)
    ensures FromLe(Le(n, k)) == n
  {
    if k > 0 {
      FromLeLe(n / 256, k - 1);
      assert Le(n, k)[1..] == Le(n / 256, k - 1);
    }
  }

  lemma Digit(d: byte, n: nat)
    ensures (d + 256 * n) % 256 == d && (d + 256 * n) / 256 == n
  {
  }

  /** And any bytes are the number they stand for, written out. */
  lemma {:induction false} LeFromLe(b: Bytes)
    ensures FromLe(b) < Range(|b|) && Le(FromLe(b), |b|) == b
  {
    if b != [] {
      LeFromLe(b[1..]);
      Digit(b[0], FromLe(b[1..]));
      assert b == [b[0]] + b[1..];
    }
  }

  const U16: nat := 0x1_0000
  const U32: nat := 0x1_0000_0000
  const U64: nat := 0x1_0000_0000_0000_0000

  lemma Ranges()
    ensures Range(2) == U16 && Range(4) == U32 && Range(8) == U64
  {
    assert Range(4) == 256 * Range(3);
    assert Range(6) == 256 * Range(5);
    assert Range(8) == 256 * Range(7);
  }

  // ---------- Media datagrams ----------

  const TYPE_DATA: byte := 0x44
  const DATA_PREFIX_SIZE: nat := 33

  datatype Header = Header(stream: nat, frame: nat, seqId: nat, total: nat, packet: nat, kind: byte, codec: byte)

  predicate Fits(session: nat, h: Header) {
    && session < U64 && h.stream < U32 && h.frame < U64 && h.seqId < U32 && h.total < U32 && h.packet < U16
  }

  function Geometry(h: Header): (r: Bytes)
    ensures |r| == 24
  {
    Le(h.stream, 4) + Le(h.frame, 8) + Le(h.seqId, 4) + Le(h.total, 4) + Le(h.packet, 2) + [h.kind] + [h.codec]
  }

  function Packet(session: nat, h: Header, data: Bytes): (r: Bytes)
    ensures |r| == DATA_PREFIX_SIZE + |data|
  {
    [TYPE_DATA] + Le(session, 8) + Geometry(h) + data
  }

  datatype Parsed = Parsed(session: nat, header: Header, payload: Bytes)

  /** What the receiver reads; nothing when the packet is too short. */
  function Parse(p: Bytes): Option<Parsed> {
    if |p| < DATA_PREFIX_SIZE then None
    else
      var g := p[9..33];
      Some(Parsed(FromLe(p[1..9]),
        Header(FromLe(g[0..4]), FromLe(g[4..12]), FromLe(g[12..16]), FromLe(g[16..20]), FromLe(g[20..22]), g[22],
          g[23]),
        p[33..]))
  }

  lemma GeometryParts(h: Header)
    ensures var g := Geometry(h);
      && g[0..4] == Le(h.stream, 4) && g[4..12] == Le(h.frame, 8) && g[12..16] == Le(h.seqId, 4)
      && g[16..20] == Le(h.total, 4) && g[20..22] == Le(h.packet, 2) && g[22] == h.kind && g[23] == h.codec
  {
    hide Le;
  }

  /** Reading a datagram gives its fields and its data followed by the padding. */
  lemma ParsePacket(session: nat, h: Header, data: Bytes, padding: Bytes)
    requires Fits(session, h)
    ensures Parse(Packet(session, h, data) + padding) == Some(Parsed(session, h, data + padding))
  {
    hide Le, Geometry, FromLe;
    var p := Packet(session, h, data) + padding;
    assert p[9..33] == Geometry(h) && p[1..9] == Le(session, 8) && p[33..] == data + padding;
    GeometryParts(h);
    Ranges();
    FromLeLe(session, 8);
    FromLeLe(h.stream, 4);
    FromLeLe(h.frame, 8);
    FromLeLe(h.seqId, 4);
    FromLeLe(h.total, 4);
    FromLeLe(h.packet, 2);
  }

  // ---------- Padding ----------

  const MAX_WIRE_PACKET_SIZE: nat := 65507
  const PADDING_ALIGN: nat := 32

  datatype PaddingMode = Disabled | Fixed(target: nat) | Adaptive(min: nat, max: nat)

  function Max(a: nat, b: nat): nat { if a > b then a else b }

  function Min(a: nat, b: nat): nat { if a < b then a else b }

  function ClampTarget(target: nat, minLen: nat): nat {
    Min(Max(target, minLen), MAX_WIRE_PACKET_SIZE)
  }

  /** The length to pad to; nothing when the bounds given to clamp are the wrong way round, which panics. */
  function TargetLength(mode: PaddingMode, rawLen: nat): Option<nat> {
    match mode
    case Disabled => Some(rawLen)
    case Fixed(target) => Some(ClampTarget(target, rawLen))
    case Adaptive(min, max) =>
      var aligned := (rawLen + PADDING_ALIGN - 1) / PADDING_ALIGN * PADDING_ALIGN;
      var lo, hi := Max(min, rawLen), Max(max, min);
      if lo > hi then None
      else Some(ClampTarget(if aligned < lo then lo else if aligned > hi then hi else aligned, rawLen))
  }

  /** Padding is defined exactly when it is not adaptive or the packet is no longer than its bounds, and
      then never asks for less than the packet has, as long as that fits a datagram. */
  lemma PaddingDefined(mode: PaddingMode, rawLen: nat)
    ensures TargetLength(mode, rawLen).Some? <==> (mode.Adaptive? ==> rawLen <= Max(mode.min, mode.max))
    ensures TargetLength(mode, rawLen).Some? && rawLen <= MAX_WIRE_PACKET_SIZE ==>
      rawLen <= TargetLength(mode, rawLen).value <= MAX_WIRE_PACKET_SIZE
  {}

  /** Adaptive padding goes to the next multiple m of 32, moved into the bounds, of which the lower one is at least the
      packet's own length; fixed padding to its target. Neither goes below the packet or beyond a datagram. */
  lemma TargetIs(min: nat, max: nat, rawLen: nat, m: nat)
    requires m % 32 == 0 && rawLen <= m < rawLen + 32 && rawLen <= MAX_WIRE_PACKET_SIZE
    ensures rawLen <= Max(min, max) ==>
      var lo, hi := Max(min, rawLen), Max(min, max);
      TargetLength(Adaptive(min, max), rawLen) == Some(Min(Min(Max(m, lo), hi), 65507))
    ensures TargetLength(Fixed(min), rawLen) == Some(Min(Max(min, rawLen), 65507))
    ensures TargetLength(Disabled, rawLen) == Some(rawLen)
  {
    var k := m / 32;
    assert m == 32 * k && (rawLen + 31) / 32 == k;
  }

  lemma LongPacketPanics()
    ensures TargetLength(Adaptive(256, 512), 513) == None
  {}

  function Zeros(n: nat): (r: Bytes)
    ensures |r| == n
  {
    seq(n, _ => 0)
  }

  // ---------- Frames ----------

  datatype Kind = NalUnit | SaoParameters

  function KindFlag(k: Kind): byte { if k.NalUnit? then 0 else 1 }

  function KindOfFlag(flag: byte): Option<Kind> {
    if flag == 0 then Some(NalUnit) else if flag == 1 then Some(SaoParameters) else None
  }

  /** No other flag is accepted. */
  lemma FlagKind(flag: byte, k: Kind)
    ensures KindOfFlag(flag) == Some(k) <==> flag == KindFlag(k)
  {}

  datatype Envelope = Envelope(timestamp: nat, keyframe: bool, payload: Bytes)

  predicate EnvelopeFits(e: Envelope) {
    e.timestamp < U64 && |e.payload| < U64
  }

  function Serialize(e: Envelope): Bytes {
    Le(e.timestamp, 8) + [if e.keyframe then 1 else 0] + Le(|e.payload|, 8) + e.payload
  }

  function Deserialize(b: Bytes): Option<Envelope> {
    if |b| < 17 || b[8] > 1 then None
    else
      var n := FromLe(b[9..17]);
      if |b| - 17 < n then None else Some(Envelope(FromLe(b[0..8]), b[8] == 1, b[17..17 + n]))
  }

  lemma DeserializeSerialize(e: Envelope)
    requires EnvelopeFits(e)
    ensures Deserialize(Serialize(e)) == Some(e)
  {
    hide Le, FromLe;
    var b := Serialize(e);
    Ranges();
    assert b[0..8] == Le(e.timestamp, 8) && b[9..17] == Le(|e.payload|, 8) && b[17..17 + |e.payload|] == e.payload;
    FromLeLe(e.timestamp, 8);
    FromLeLe(|e.payload|, 8);
  }

  /** What is read as an envelope begins with it; what follows is not looked at. */
  lemma DeserializeIff(b: Bytes, e: Envelope)
    ensures Deserialize(b) == Some(e) <==> EnvelopeFits(e) && Serialize(e) <= b
  {
    hide Le, FromLe;
    Ranges();
    if Deserialize(b) == Some(e) {
      LeFromLe(b[0..8]);
      LeFromLe(b[9..17]);
      var n := |e.payload|;
      assert b[..17 + n] == b[0..8] + [b[8]] + b[9..17] + b[17..17 + n];
    }
    if EnvelopeFits(e) && Serialize(e) <= b {
      var n := |e.payload|;
      FromLeLe(e.timestamp, 8);
      FromLeLe(n, 8);
      var s := Serialize(e);
      assert b[0..8] == s[0..8] == Le(e.timestamp, 8) && b[9..17] == s[9..17] == Le(n, 8);
      assert b[8] == s[8] && b[17..17 + n] == s[17..17 + n] == e.payload;
    }
  }

  /** The pipeline marks how the body is packed; the compressor for parameters passes its input through. */
  function Protect(raw: Bytes, kind: Kind, compress: bool): (r: Bytes)
    ensures |r| == |raw| + 1
  {
    [if kind.NalUnit? then 0 else if compress then 2 else 1] + raw
  }

  function Restore(block: Bytes): Option<(Kind, Bytes)> {
    if block == [] then None
    else if block[0] == 0 then Some((NalUnit, block[1..]))
    else if block[0] == 1 || block[0] == 2 then Some((SaoParameters, block[1..]))
    else None
  }

  lemma RestoreProtect(raw: Bytes, kind: Kind, compress: bool)
    ensures Restore(Protect(raw, kind, compress)) == Some((kind, raw))
  {
    assert Protect(raw, kind, compress)[1..] == raw;
  }
}

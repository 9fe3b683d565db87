/** Whole messages of bytes. The codec does the same to every byte position of the blocks, its lanes: what
    it gives back in each lane makes up the message. */
module Messages {
  import opened Wire
  import opened GF256
  import opened Linear
  import opened PeelState
  import opened Equations
  import opened Lengths
  import Bulk
  import Codec
  import Assembly
  import Skipping

  function ByteAt(message: Bytes, k: nat): Byte {
    if k < |message| then Bulk.ByteOf(message[k]) else ZERO
  }

  /** The byte of block i in a lane. */
  function InBlock(message: Bytes, packet: nat, lane: nat, i: nat): Byte {
    ByteAt(message, i * packet + lane)
  }

  /** A lane of the message: one byte of every block, zero beyond the end. */
  function LaneOf(message: Bytes, packet: nat, n: nat, lane: nat): (v: Vec)
    ensures |v| == n
  {
    seq(n, i requires 0 <= i < n => InBlock(message, packet, lane, i))
  }

  /** Whether block i of a message of this size has the lane. */
  predicate HasLane(size: nat, packet: nat, n: nat, lane: nat, i: nat)
    requires packet >= 1
  {
    lane < if i + 1 == n then FinalBytes(size, packet) else packet
  }

  /** Where byte k of a message is. */
  lemma Place(size: nat, packet: nat, n: nat, k: nat)
    requires packet >= 1 && n >= 1 && Covers(n, size, packet) && k < size
    ensures k / packet < n && HasLane(size, packet, n, k % packet, k / packet) && k / packet * packet + k % packet == k
  {
    var i, lane := k / packet, k % packet;
    assert k == i * packet + lane;
    FinalFills(n, size, packet);
    if i >= n { Scale(n, i, packet); }
  }

  /** Messages whose lanes agree are equal. */
  lemma SameLanes(a: Bytes, b: Bytes, packet: nat, n: nat)
    requires |a| == |b| && packet >= 1 && n >= 1 && Covers(n, |a|, packet)
    requires forall lane: nat, i: nat :: lane < packet && i < n && HasLane(|a|, packet, n, lane, i) ==>
      InBlock(a, packet, lane, i) == InBlock(b, packet, lane, i)
    ensures a == b
  {
    hide Covers, HasLane;
    forall k | 0 <= k < |a| ensures a[k] == b[k] {
      Place(|a|, packet, n, k);
      assert InBlock(a, packet, k % packet, k / packet) == InBlock(b, packet, k % packet, k / packet);
      Bulk.NumByte(a[k]);
      Bulk.NumByte(b[k]);
    }
  }

  // ---------- End to end ----------

  /** What came back in a lane. */
  ghost predicate LaneBack(cells: seq<Byte>, message: Bytes, packet: nat, n: nat, lane: nat)
    requires packet >= 1
  {
    |cells| == n && forall i: nat :: i < n && HasLane(|message|, packet, n, lane, i) ==>
      cells[i] == InBlock(message, packet, lane, i)
  }

  /** Whether encoding and decoding succeed: the encoder can solve, and a decoder fed with these rows has
      enough. The contents of the message do not come in. */
  ghost predicate Enough(s: System, packet: nat, size: nat, schedule: seq<nat>)
    requires ValidSystem(s) && packet >= 1
  {
    Codec.Encodable(s) && Codec.FedAll(s, packet, FinalBytes(size, packet), schedule).Done()
  }

  /** Encode a message, send rows of it in any order, with losses and repetitions, and decode: when the
      decoder says that it is done, what it writes is the message, unless back substitution passed over an
      entry. The program does at each step to all lanes what is done here lane after lane: as long as no spare
      row has to be used again, all lanes succeed or none does, and which it is follows from the ids. */
  method TransferMessage(system: System, packet: nat, message: Bytes, memory: Vec, memory': Vec, schedule: seq<nat>)
    returns (done: bool, output: Bytes, encoders: seq<Codec.Codec>, decoders: seq<Codec.Codec>)
    requires ValidSystem(system) && system.code.n <= MAX_N && system.dense <= Assembly.MAX_DENSE_ROWS
    requires packet >= 1 && Covers(system.code.n, |message|, packet) && |message| < 0x1_0000_0000
    requires |memory| == |memory'| == system.Size() + 1
    ensures |encoders| == |decoders| == packet
    ensures done && Codec.AllReached(encoders) && Codec.AllReached(decoders) ==> output == message
    ensures done && system.code.n + system.dense + MAX_EXTRA_ROWS <= Skipping.ROW_LIMIT ==>
      Codec.AllReached(encoders) && Codec.AllReached(decoders)
    ensures done ==> Codec.Encodable(system)
    ensures |schedule| <= system.code.n + MAX_EXTRA_ROWS ==> (done <==> Enough(system, packet, |message|, schedule))
  {
    hide ValidSystem, HasLane, FinalBytes, InBlock, Codec.Codec.Reached, Codec.Encodable, Codec.FedAll;
    var n := system.code.n;
    CodeSize(system);
    FinalFills(n, |message|, packet);
    var lanes: seq<seq<Byte>> := [];
    done, encoders, decoders := true, [], [];
    while |lanes| < packet
      invariant |lanes| == |encoders| == |decoders| <= packet && forall l :: 0 <= l < |lanes| ==> |lanes[l]| == n
      invariant done ==> forall l :: 0 <= l < |lanes| && encoders[l].Reached() && decoders[l].Reached() ==>
        LaneBack(lanes[l], message, packet, n, l)
      invariant done && n + system.dense + MAX_EXTRA_ROWS <= Skipping.ROW_LIMIT ==>
        forall l :: 0 <= l < |lanes| ==> encoders[l].Reached() && decoders[l].Reached()
      invariant if lanes == [] then done else done ==> Codec.Encodable(system)
      invariant |schedule| <= n + MAX_EXTRA_ROWS && lanes != [] ==>
        (done <==> Enough(system, packet, |message|, schedule))
    {
      var lane := |lanes|;
      var cells := new Byte[n](_ => ZERO);
      var finished, e, d :=
        Codec.Transfer(system, packet, lane, FinalBytes(|message|, packet), LaneOf(message, packet, n, lane), memory,
          memory', schedule, cells);
      if finished && e.Reached() && d.Reached() { LaneIsBack(cells[..], message, packet, n, lane); }
      done := done && finished;
      lanes, encoders, decoders := lanes + [cells[..]], encoders + [e], decoders + [d];
    }
    output := Joined(lanes, n, packet, |message|);
    if done && Codec.AllReached(encoders) && Codec.AllReached(decoders) { JoinedIs(lanes, message, packet, n); }
  }

  lemma CodeSize(s: System)
    requires ValidSystem(s)
    ensures s.code.n >= 2
  {}

  lemma LaneIsBack(cells: seq<Byte>, message: Bytes, packet: nat, n: nat, lane: nat)
    requires packet >= 1 && n >= 1 && |cells| == n && lane < packet
    requires forall i :: 0 <= i < n ==>
      cells[i] == if lane < (if i == n - 1 then FinalBytes(|message|, packet) else packet) then
        LaneOf(message, packet, n, lane)[i] else ZERO
    ensures LaneBack(cells, message, packet, n, lane)
  {
    hide InBlock;
  }

  /** The bytes of all lanes, block after block. */
  function Joined(lanes: seq<seq<Byte>>, n: nat, packet: nat, size: nat): (r: Bytes)
    requires packet >= 1 && n >= 1 && Covers(n, size, packet) && |lanes| == packet && forall l :: 0 <= l < packet ==>
      |lanes[l]| == n
    ensures |r| == size
  {
    seq(size, k requires 0 <= k < size => JoinedAt(lanes, n, packet, size, k))
  }

  function JoinedAt(lanes: seq<seq<Byte>>, n: nat, packet: nat, size: nat, k: nat): byte
    requires packet >= 1 && n >= 1 && Covers(n, size, packet) && |lanes| == packet && forall l :: 0 <= l < packet ==>
      |lanes[l]| == n
    requires k < size
  {
    Place(size, packet, n, k);
    NumBack(lanes[k % packet][k / packet]);
    Num(lanes[k % packet][k / packet])
  }

  /** A cell that came back is the byte of the message at its place. */
  lemma CellIs(cells: seq<Byte>, message: Bytes, packet: nat, n: nat, lane: nat, i: nat)
    requires packet >= 1 && LaneBack(cells, message, packet, n, lane)
    requires i < n && HasLane(|message|, packet, n, lane, i) && i * packet + lane < |message|
    ensures i < |cells| && Num(cells[i]) == message[i * packet + lane]
  {
    hide HasLane, Num;
    Bulk.NumByte(message[i * packet + lane]);
  }

  lemma JoinedOne(lanes: seq<seq<Byte>>, message: Bytes, packet: nat, n: nat, k: nat)
    requires packet >= 1 && n >= 1 && Covers(n, |message|, packet) && |lanes| == packet && k < |message|
    requires forall l :: 0 <= l < packet ==> |lanes[l]| == n && LaneBack(lanes[l], message, packet, n, l)
    ensures JoinedAt(lanes, n, packet, |message|, k) == message[k]
  {
    hide Num, Covers, HasLane, LaneBack;
    Place(|message|, packet, n, k);
    CellIs(lanes[k % packet], message, packet, n, k % packet, k / packet);
  }

  /** A cell is where its lane has it. */
  lemma JoinedCell(lanes: seq<seq<Byte>>, n: nat, packet: nat, size: nat, lane: nat, i: nat)
    requires packet >= 1 && n >= 1 && Covers(n, size, packet) && |lanes| == packet && forall l :: 0 <= l < packet ==>
      |lanes[l]| == n
    requires lane < packet && i < n && HasLane(size, packet, n, lane, i)
    ensures InBlock(Joined(lanes, n, packet, size), packet, lane, i) == lanes[lane][i]
  {
    hide Num, Bulk.ByteOf;
    var k := i * packet + lane;
    InMessage(size, packet, n, lane, i);
    assert Joined(lanes, n, packet, size)[k] == JoinedAt(lanes, n, packet, size, k) == Num(lanes[lane][i]);
    Bulk.ByteNum(lanes[lane][i]);
  }

  lemma InMessage(size: nat, packet: nat, n: nat, lane: nat, i: nat)
    requires packet >= 1 && n >= 1 && Covers(n, size, packet) && lane < packet && i < n
      && HasLane(size, packet, n, lane, i)
    ensures i * packet + lane < size && (i * packet + lane) / packet == i && (i * packet + lane) % packet == lane
  {
    hide FinalBytes;
    FinalFills(n, size, packet);
    QuotientOnce(i * packet + lane, packet, i, lane);
    if i + 1 < n { Scale(i + 1, n - 1, packet); }
  }

  lemma JoinedIs(lanes: seq<seq<Byte>>, message: Bytes, packet: nat, n: nat)
    requires packet >= 1 && n >= 1 && Covers(n, |message|, packet) && |lanes| == packet
    requires forall l :: 0 <= l < packet ==> |lanes[l]| == n && LaneBack(lanes[l], message, packet, n, l)
    ensures Joined(lanes, n, packet, |message|) == message
  {
    hide Num, Covers, HasLane, JoinedAt, LaneBack;
    forall k | 0 <= k < |message| ensures JoinedAt(lanes, n, packet, |message|, k) == message[k] {
      JoinedOne(lanes, message, packet, n, k);
    }
  }
}

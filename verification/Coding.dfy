/** The codec as the erasure code of the session: what encoders and decoders, one for every lane, do with
    whole blocks, whatever blocks arrive. It is what the session asks of its code. */
module Coding {
  import opened Wire
  import opened GF256
  import opened Linear
  import opened PeelState
  import opened Equations
  import opened Lengths
  import opened Messages
  import Bulk
  import Codec
  import Assembly
  import Session
  import Skipping
  import Uniqueness

  /** The code has as many blocks as the message. */
  ghost predicate Coded(s: System, size: nat, packet: nat) {
    && ValidSystem(s) && s.code.n <= MAX_N && s.dense <= Assembly.MAX_DENSE_ROWS
    && packet >= 1 && Covers(s.code.n, size, packet) && size < 0x1_0000_0000
  }

  /** No entry is ever passed over in this code. */
  ghost predicate WithinLimit(s: System) {
    s.code.n + s.dense + MAX_EXTRA_ROWS <= Skipping.ROW_LIMIT
  }

  lemma CodedSize(s: System, size: nat, packet: nat)
    requires Coded(s, size, packet)
    ensures ValidSystem(s) && s.code.n >= 2 && packet >= 1 && Covers(s.code.n, size, packet)
    ensures packet * (s.code.n - 1) + FinalBytes(size, packet) == size
  {
    hide ValidSystem;
    Messages.CodeSize(s);
    FinalFills(s.code.n, size, packet);
  }

  // ---------- Encoding ----------

  /** z encodes a lane of the message: a codeword whose first rows are the lane. */
  ghost predicate CodesLane(s: System, message: Bytes, packet: nat, lane: nat, z: Vec)
    requires Coded(s, |message|, packet)
  {
    && |z| == s.Size() && Codeword(s, z)
    && (forall i: nat :: i < s.code.n ==> RowLeft(s, i, z) == InBlock(message, packet, lane, i))
  }

  /** What a block has in a lane is row id of z. */
  ghost predicate HasRow(s: System, lane: nat, z: Vec, id: nat, block: Bytes)
    requires ValidSystem(s) && |z| == s.Size()
  {
    lane < |block| ==> ByteAt(block, lane) == RowLeft(s, id, z)
  }

  /** The block is the one sent under this id: row id of the codewords of all lanes. */
  ghost predicate SentBlock(s: System, message: Bytes, packet: nat, zs: seq<Vec>, id: nat, block: Bytes)
    requires Coded(s, |message|, packet) && |zs| == packet
  {
    && |block| == SentBytes(id, s.code.n, packet, FinalBytes(|message|, packet))
    && (forall lane :: 0 <= lane < packet ==>
      CodesLane(s, message, packet, lane, zs[lane])
      && HasRow(s, lane, zs[lane], id, block))
  }

  /** Encode a message and make the blocks with these ids. */
  method EncodeBlocks(s: System, packet: nat, message: Bytes, memory: Vec, ids: seq<nat>)
    returns (ok: bool, blocks: seq<Bytes>, encoders: seq<Codec.Codec>, ghost zs: seq<Vec>)
    requires Coded(s, |message|, packet) && |memory| == s.Size() + 1
    ensures |encoders| == |zs| == packet && (ok ==> |blocks| == |ids|)
    ensures ok <==> ValidSystem(s) && Codec.Encodable(s)
    ensures ok && Codec.AllReached(encoders) ==> forall k :: 0 <= k < |ids| ==>
      SentBlock(s, message, packet, zs, ids[k], blocks[k])
    ensures ok && WithinLimit(s) ==> Codec.AllReached(encoders)
  {
    hide Codec.AllReached, Coded, SentBlock, Encodes, Codec.Encodable;
    blocks := [];
    ok, encoders, zs := EncodeLanes(s, packet, message, memory);
    if ok {
      blocks := EncodeIds(s, packet, message, encoders, ids, zs);
    }
  }

  method EncodeLanes(s: System, packet: nat, message: Bytes, memory: Vec)
    returns (ok: bool, encoders: seq<Codec.Codec>, ghost zs: seq<Vec>)
    requires Coded(s, |message|, packet) && |memory| == s.Size() + 1
    ensures |encoders| == |zs| == packet && (ok <==> ValidSystem(s) && Codec.Encodable(s))
    ensures ok ==> forall l :: 0 <= l < packet ==> Encodes(s, message, packet, l, encoders[l], zs[l])
    ensures ok && WithinLimit(s) ==> Codec.AllReached(encoders)
  {
    hide Codec.Codec.Reached, Coded, Encodes, Codec.Encodable;
    CodedSize(s, |message|, packet);
    ok, encoders, zs := true, [], [];
    while |encoders| < packet
      invariant |encoders| == |zs| <= packet
      invariant if encoders == [] then ok else ok <==> ValidSystem(s) && Codec.Encodable(s)
      invariant ok ==> forall l :: 0 <= l < |encoders| ==> Encodes(s, message, packet, l, encoders[l], zs[l])
      invariant ok && WithinLimit(s) ==> forall l :: 0 <= l < |encoders| ==> encoders[l].Reached()
    {
      var fed, e, z := EncodeLane(s, packet, message, memory, |encoders|);
      ok := ok && fed;
      encoders, zs := encoders + [e], zs + [z];
    }
  }

  method EncodeIds(s: System, packet: nat, message: Bytes, encoders: seq<Codec.Codec>, ids: seq<nat>,
    ghost zs: seq<Vec>)
    returns (blocks: seq<Bytes>)
    requires Coded(s, |message|, packet) && |encoders| == |zs| == packet
    requires forall l :: 0 <= l < packet ==> Encodes(s, message, packet, l, encoders[l], zs[l])
    ensures |blocks| == |ids|
    ensures Codec.AllReached(encoders) ==> forall k :: 0 <= k < |ids| ==>
      SentBlock(s, message, packet, zs, ids[k], blocks[k])
  {
    hide Codec.AllReached, Coded, SentBlock, Encodes;
    blocks := [];
    while |blocks| < |ids|
      invariant |blocks| <= |ids|
      invariant Codec.AllReached(encoders) ==> forall k :: 0 <= k < |blocks| ==>
        SentBlock(s, message, packet, zs, ids[k], blocks[k])
    {
      var block := EncodeBlock(s, packet, message, encoders, ids[|blocks|], zs);
      blocks := blocks + [block];
    }
  }

  /** An encoder fed with a lane of the message. */
  ghost predicate Encodes(s: System, message: Bytes, packet: nat, lane: nat, e: Codec.Codec, z: Vec)
    requires Coded(s, |message|, packet)
    reads e, e.solver, if e.solver == null then {} else {e.solver.elim}
  {
    && e.system == s && e.Ready() && e.lane == lane && e.blockBytes == packet
      && e.inputFinal == FinalBytes(|message|, packet)
    && (e.Reached() ==> e.Emits() && z == e.Blocks() && CodesLane(s, message, packet, lane, z))
  }

  /** Feed an encoder with a lane of the message. */
  method EncodeLane(s: System, packet: nat, message: Bytes, memory: Vec, lane: nat)
    returns (ok: bool, e: Codec.Codec, ghost z: Vec)
    requires Coded(s, |message|, packet) && |memory| == s.Size() + 1 && lane < packet
    ensures fresh(e) && (e.solver == null || (fresh(e.solver) && fresh(e.solver.elim)))
    ensures ok <==> ValidSystem(s) && Codec.Encodable(s)
    ensures ok ==> Encodes(s, message, packet, lane, e, z)
    ensures ok && WithinLimit(s) ==> e.Reached()
  {
    hide Codec.Codec.Reached, RowLeft, Codeword, InBlock, ValidSystem, Codec.Encodable;
    CodedSize(s, |message|, packet);
    e := new Codec.Codec.Encoder(s, packet, lane, FinalBytes(|message|, packet), memory);
    z := [];
    var r := e.EncodeFeed(LaneOf(message, packet, s.code.n, lane));
    ok := r == Codec.Success;
    if ok {
      z := e.Blocks();
      if e.Reached() { LaneCoded(s, message, packet, lane, e); }
    }
  }

  /** A lane is padded at the end as the encoder pads it. */
  lemma LaneCoded(s: System, message: Bytes, packet: nat, lane: nat, e: Codec.Codec)
    requires Coded(s, |message|, packet) && lane < packet && e.system == s && e.lane == lane && e.blockBytes == packet
    requires e.inputFinal == FinalBytes(|message|, packet) && e.Ready()
    requires e.Encodes(LaneOf(message, packet, s.code.n, lane)) && e.input == LaneOf(message, packet, s.code.n, lane)
    ensures e.Emits() && CodesLane(s, message, packet, lane, e.Blocks())
  {
    hide RowLeft, Codeword, ValidSystem, InBlock;
    CodedSize(s, |message|, packet);
    var n := s.code.n;
    if lane >= FinalBytes(|message|, packet) { EndIsZero(message, packet, n, lane); }
  }

  lemma EndIsZero(message: Bytes, packet: nat, n: nat, lane: nat)
    requires packet >= 1 && n >= 1 && packet * (n - 1) + FinalBytes(|message|, packet) == |message|
      && lane >= FinalBytes(|message|, packet)
    ensures InBlock(message, packet, lane, n - 1) == ZERO
  {}

  /** One block: a byte from every lane that has it. */
  method EncodeBlock(s: System, packet: nat, message: Bytes, encoders: seq<Codec.Codec>, id: nat, ghost zs: seq<Vec>)
    returns (block: Bytes)
    requires Coded(s, |message|, packet) && |encoders| == |zs| == packet
    requires forall l :: 0 <= l < packet ==> Encodes(s, message, packet, l, encoders[l], zs[l])
    ensures Codec.AllReached(encoders) ==> SentBlock(s, message, packet, zs, id, block)
  {
    hide Codec.Codec.Reached, RowLeft, Codeword, InBlock, ValidSystem, CodesLane, Codec.Codec.Emits;
    CodedSize(s, |message|, packet);
    var size := SentBytes(id, s.code.n, packet, FinalBytes(|message|, packet));
    block := [];
    while |block| < size
      invariant |block| <= size <= packet
      invariant forall l :: 0 <= l < |block| && encoders[l].Reached() ==>
        |zs[l]| == s.Size() && ByteAt(block, l) == RowLeft(s, id, zs[l])
    {
      var lane := |block|;
      assert Encodes(s, message, packet, lane, encoders[lane], zs[lane]);
      var bytes, value := encoders[lane].Encode(id, packet);
      NumBack(value);
      Bulk.ByteNum(value);
      ghost var before := block;
      block := block + [Num(value)];
      assert forall l :: 0 <= l < lane ==> ByteAt(block, l) == ByteAt(before, l);
    }
    if Codec.AllReached(encoders) {
      forall l | 0 <= l < packet ensures CodesLane(s, message, packet, l, zs[l]) && HasRow(s, l, zs[l], id, block) {
        assert Encodes(s, message, packet, l, encoders[l], zs[l]);
        LaneSize(s, message, packet, l, zs[l]);
      }
    }
  }

  lemma LaneSize(s: System, message: Bytes, packet: nat, lane: nat, z: Vec)
    requires Coded(s, |message|, packet) && CodesLane(s, message, packet, lane, z)
    ensures |z| == s.Size() && Codeword(s, z)
    ensures forall i: nat :: i < s.code.n ==> RowLeft(s, i, z) == InBlock(message, packet, lane, i)
  {
    hide RowLeft, Codeword, InBlock, ValidSystem;
  }

  // ---------- Decoding ----------

  /** What the decoder takes from a block into this lane, if it takes the block at all, is a row of z. */
  ghost predicate Takes(s: System, size: nat, packet: nat, lane: nat, b: Session.Block, z: Vec)
    requires Coded(s, size, packet) && |z| == s.Size()
  {
    var last := b.id + 1 == s.code.n;
    Expected(b.id, s.code.n, packet, FinalBytes(size, packet), |b.data|) ==>
      (if last && lane >= FinalBytes(size, packet) then ZERO else ByteAt(b.data, lane)) == RowLeft(s, b.id, z)
  }

  ghost predicate TakesAll(s: System, size: nat, packet: nat, lane: nat, feed: seq<Session.Block>, z: Vec)
    requires Coded(s, size, packet) && |z| == s.Size()
  {
    forall k :: 0 <= k < |feed| ==> Takes(s, size, packet, lane, feed[k], z)
  }

  /** What is written in a lane are the first rows of any codeword that the blocks are rows of. */
  ghost predicate WritesLane(s: System, size: nat, packet: nat, feed: seq<Session.Block>, lane: nat, cells: seq<Byte>)
    requires Coded(s, size, packet)
  {
    && |cells| == s.code.n
    && (forall z: Vec :: |z| == s.Size() && Codeword(s, z) && TakesAll(s, size, packet, lane, feed, z) ==>
          forall i: nat :: i < s.code.n && HasLane(size, packet, s.code.n, lane, i) ==> cells[i] == RowLeft(s, i, z))
  }

  ghost predicate Writes(s: System, size: nat, packet: nat, feed: seq<Session.Block>, message: Bytes)
    requires Coded(s, size, packet)
  {
    && |message| == size
    && (forall lane: nat :: lane < packet ==> WritesLane(s, size, packet, feed, lane,
      LaneOf(message, packet, s.code.n, lane)))
  }

  /** A codeword that the blocks are rows of, as far as this lane takes them. */
  ghost predicate Fits(s: System, size: nat, packet: nat, lane: nat, feed: seq<Session.Block>, z: Vec)
    requires Coded(s, size, packet)
  {
    |z| == s.Size() && Codeword(s, z) && TakesAll(s, size, packet, lane, feed, z)
  }

  /** The rows held are rows of z. */
  ghost predicate Agrees(s: System, ids: seq<nat>, input: Vec, z: Vec)
    requires ValidSystem(s)
  {
    |z| == s.Size() && |ids| == |input| && forall q :: 0 <= q < |ids| ==> input[q] == RowLeft(s, ids[q], z)
  }

  /** What is held are rows of any codeword that the blocks are rows of. */
  ghost predicate AgreesSoFar(s: System, size: nat, packet: nat, lane: nat, feed: seq<Session.Block>, ids: seq<nat>,
    input: Vec)
    requires Coded(s, size, packet)
  {
    forall z: Vec :: Fits(s, size, packet, lane, feed, z) ==> Agrees(s, ids, input, z)
  }

  lemma HonestIs(d: Codec.Codec, z: Vec)
    requires ValidSystem(d.system)
    ensures d.Honest(z) <==> |z| == d.system.Size() && Codeword(d.system, z) && Agrees(d.system, d.ids, d.input, z)
  {
    hide RowLeft, Codeword, ValidSystem;
  }

  lemma FitsHonest(s: System, size: nat, packet: nat, lane: nat, feed: seq<Session.Block>, d: Codec.Codec, z: Vec)
    requires Coded(s, size, packet) && d.system == s && Fits(s, size, packet, lane, feed, z)
    requires AgreesSoFar(s, size, packet, lane, feed, d.ids, d.input)
    ensures ValidSystem(s) && d.Honest(z) && |z| == s.Size() && Codeword(s, z)
  {
    hide RowLeft, Codeword, ValidSystem, TakesAll;
    HonestIs(d, z);
  }

  lemma AgreesNone(s: System, size: nat, packet: nat, lane: nat, feed: seq<Session.Block>)
    requires Coded(s, size, packet)
    ensures AgreesSoFar(s, size, packet, lane, feed, [], [])
  {
    hide RowLeft, Codeword, ValidSystem, TakesAll;
  }

  lemma FitsLess(s: System, size: nat, packet: nat, lane: nat, feed: seq<Session.Block>, k: nat, z: Vec)
    requires Coded(s, size, packet) && k < |feed| && Fits(s, size, packet, lane, feed[..k + 1], z)
    ensures Fits(s, size, packet, lane, feed[..k], z) && |z| == s.Size() && Codeword(s, z)
    ensures Takes(s, size, packet, lane, feed[k], z)
  {
    hide RowLeft, Codeword, ValidSystem, Takes;
    assert feed[..k + 1][k] == feed[k];
    forall i | 0 <= i < k ensures Takes(s, size, packet, lane, feed[..k][i], z) {
      assert feed[..k + 1][i] == feed[..k][i]; }
  }

  lemma TakenAsStored(s: System, size: nat, packet: nat, lane: nat, d: Codec.Codec, b: Session.Block, z: Vec)
    requires Coded(s, size, packet) && |z| == s.Size() && d.system == s && d.blockBytes == packet && d.lane == lane
    requires d.outputFinal == FinalBytes(size, packet) && d.SizeOk(b.id, |b.data|) && Takes(s, size, packet, lane, b, z)
    ensures d.Stored(b.id, ByteAt(b.data, lane)) == RowLeft(s, b.id, z)
  {
    hide RowLeft, ValidSystem;
  }

  /** Write the lane of the message. */
  method WriteLane(s: System, packet: nat, size: nat, lane: nat, d: Codec.Codec, ghost fed: seq<Session.Block>)
    returns (cells: seq<Byte>)
    requires Coded(s, size, packet) && lane < packet && d.Valid() && d.Recoverable() && d.system == s
      && d.blockBytes == packet
    requires d.lane == lane && d.outputFinal == FinalBytes(size, packet)
      && AgreesSoFar(s, size, packet, lane, fed, d.ids, d.input)
    ensures |cells| == s.code.n
    ensures d.Reached() ==> WritesLane(s, size, packet, fed, lane, cells)
  {
    hide Codec.Codec.Reached, RowLeft, Codeword, ValidSystem, Codec.Codec.Honest, Codec.Codec.Valid, TakesAll,
      Codec.Codec.Written, Agrees;
    CodedSize(s, size, packet);
    d.SizesOk();
    var output := new Byte[s.code.n](_ => ZERO);
    var r := d.ReconstructOutput(size, output);
    cells := output[..];
    if d.Reached() {
      forall z: Vec, i: nat | Fits(s, size, packet, lane, fed, z) && i < s.code.n
        && HasLane(size, packet, s.code.n, lane, i)
        ensures cells[i] == RowLeft(s, i, z)
      {
        FitsHonest(s, size, packet, lane, fed, d, z);
        d.WrittenRight(z, i, output[i]);
      }
    }
  }

  /** Fewer blocks determine no less. */
  lemma WritesMore(s: System, size: nat, packet: nat, feed: seq<Session.Block>, k: nat, lane: nat, cells: seq<Byte>)
    requires Coded(s, size, packet) && k <= |feed| && WritesLane(s, size, packet, feed[..k], lane, cells)
    ensures WritesLane(s, size, packet, feed, lane, cells)
  {
    hide RowLeft, Codeword, ValidSystem, Takes, HasLane;
    forall z: Vec | |z| == s.Size() && Codeword(s, z) && TakesAll(s, size, packet, lane, feed, z)
      ensures TakesAll(s, size, packet, lane, feed[..k], z)
    {
      forall i | 0 <= i < k ensures Takes(s, size, packet, lane, feed[..k][i], z) { assert feed[..k][i] == feed[i]; }
    }
  }

  /** The lanes put together. */
  lemma JoinedWrites(s: System, size: nat, packet: nat, feed: seq<Session.Block>, lanes: seq<seq<Byte>>)
    requires Coded(s, size, packet) && |lanes| == packet
    requires forall l :: 0 <= l < packet ==> |lanes[l]| == s.code.n && WritesLane(s, size, packet, feed, l, lanes[l])
    ensures s.code.n >= 1 && Covers(s.code.n, size, packet)
      && Writes(s, size, packet, feed, Joined(lanes, s.code.n, packet, size))
  {
    hide RowLeft, Codeword, ValidSystem, TakesAll, HasLane, Joined, InBlock;
    CodedSize(s, size, packet);
    var m := Joined(lanes, s.code.n, packet, size);
    forall lane: nat | lane < packet ensures WritesLane(s, size, packet, feed, lane,
      LaneOf(m, packet, s.code.n, lane)) {
      forall i: nat | i < s.code.n && HasLane(size, packet, s.code.n, lane, i)
        ensures LaneOf(m, packet, s.code.n, lane)[i] == lanes[lane][i] {
        JoinedCell(lanes, s.code.n, packet, size, lane, i);
      }
    }
  }

  predicate WrongSize(s: System, size: nat, packet: nat, b: Session.Block)
    requires packet >= 1
  {
    !Expected(b.id, s.code.n, packet, FinalBytes(size, packet), |b.data|)
  }

  /** What the ids and sizes of blocks make of a decoder, whatever their data, until there are enough of them or a
      repeated original or a wrong size ends it; nothing for a wrong size. */
  ghost function FedBlocks(s: System, size: nat, packet: nat, feed: seq<Session.Block>): Option<Codec.Intake>
    requires ValidSystem(s) && packet >= 1
  {
    if feed == [] then Some(Codec.Intake([], true, Codec.Feeding))
    else
      var k := |feed| - 1;
      match FedBlocks(s, size, packet, feed[..k])
      case None => None
      case Some(st) =>
        if st.Done() || st.status == Codec.Broken then Some(st)
        else if WrongSize(s, size, packet, feed[k]) then None
        else Some(Codec.Fed(s, st, feed[k].id, true))
  }

  /** And what is answered to the last of them. */
  function Told(st: Option<Codec.Intake>): Codec.Result {
    match st
    case None => Codec.InvalidInput
    case Some(i) => Codec.Answer(i.status, false)
  }

  predicate AsTold(outcome: Session.Outcome, r: Codec.Result) {
    match r
    case Success => outcome.Recovered?
    case NeedMore => outcome.NeedMore?
    case _ => outcome.Failed?
  }

  lemma FedBlocksNext(s: System, size: nat, packet: nat, feed: seq<Session.Block>, k: nat)
    requires ValidSystem(s) && packet >= 1 && k < |feed|
    ensures FedBlocks(s, size, packet, feed[..k + 1]) ==
      match FedBlocks(s, size, packet, feed[..k])
      case None => None
      case Some(st) =>
        if st.Done() || st.status == Codec.Broken then Some(st)
        else if WrongSize(s, size, packet, feed[k]) then None
        else Some(Codec.Fed(s, st, feed[k].id, true))
  {
    hide Codec.Fed;
    assert feed[..k + 1][..k] == feed[..k];
  }

  /** Nothing is fed any more once more is not asked for. */
  lemma {:induction false} FedBlocksStop(s: System, size: nat, packet: nat, feed: seq<Session.Block>, k: nat)
    requires ValidSystem(s) && packet >= 1 && k <= |feed|
    requires Told(FedBlocks(s, size, packet, feed[..k])) != Codec.Result.NeedMore || k == |feed|
    ensures FedBlocks(s, size, packet, feed) == FedBlocks(s, size, packet, feed[..k])
    decreases |feed| - k
  {
    hide Codec.Fed, FedBlocks;
    if k < |feed| {
      FedBlocksNext(s, size, packet, feed, k);
      FedBlocksStop(s, size, packet, feed, k + 1);
    } else {
      assert feed[..k] == feed;
    }
  }

  /** A decoder of this lane, which holds what it took from the first k blocks. */
  ghost predicate Decodes(s: System, size: nat, packet: nat, lane: nat, d: Codec.Codec, feed: seq<Session.Block>,
    k: nat)
    requires Coded(s, size, packet) && k <= |feed|
    reads d, d.peeler, d.solver, if d.solver == null then {} else {d.solver.elim}
  {
    && d.Valid() && d.system == s && d.blockBytes == packet && d.lane == lane
      && d.outputFinal == FinalBytes(size, packet)
    && d.extraCount == MAX_EXTRA_ROWS && AgreesSoFar(s, size, packet, lane, feed[..k], d.ids, d.input)
    && (|feed| <= s.code.n + MAX_EXTRA_ROWS ==>
          |d.ids| <= k && ValidSystem(s)
          && (FedBlocks(s, size, packet, feed[..k]) == Some(d.State())
            || FedBlocks(s, size, packet, feed[..k]) == None))
  }

  /** Feed one block. */
  method FeedBlock(s: System, packet: nat, size: nat, lane: nat, d: Codec.Codec, feed: seq<Session.Block>, k: nat)
    returns (r: Codec.Result)
    requires Coded(s, size, packet) && lane < packet && k < |feed| && Decodes(s, size, packet, lane, d, feed, k)
    requires d.status == Codec.Feeding || d.status == Codec.Waiting
    requires |feed| <= s.code.n + MAX_EXTRA_ROWS ==> FedBlocks(s, size, packet, feed[..k]) == Some(d.State())
    modifies d, d.peeler, d.solver, if d.solver == null then {} else {d.solver.elim}
    ensures Decodes(s, size, packet, lane, d, feed, k + 1)
    ensures d.solver == old(d.solver) || (fresh(d.solver) && d.solver != null && fresh(d.solver.elim))
    ensures r == Codec.Result.NeedMore ==> d.status == Codec.Feeding || d.status == Codec.Waiting
    ensures r == Codec.Success ==> d.Recoverable()
    ensures r == Codec.InvalidInput ==> d.status == Codec.Broken || WrongSize(s, size, packet, feed[k])
    ensures r == Codec.Result.ExtraInsufficient ==> d.UsedUp()
    ensures r != Codec.BadPeelSeed
    ensures |feed| <= s.code.n + MAX_EXTRA_ROWS ==> r == Told(FedBlocks(s, size, packet, feed[..k + 1]))
  {
    hide Codec.Codec.Reached, RowLeft, Codeword, ValidSystem, Codec.Codec.Honest, Codec.Codec.Valid, Takes, Fits,
      FedBlocks, Codec.Fed;
    CodedSize(s, size, packet);
    var b := feed[k];
    FedBlocksNext(s, size, packet, feed, k);
    Codec.FedLonger(s, d.State(), b.id, true);
    forall z: Vec | Fits(s, size, packet, lane, feed[..k], z)
      ensures d.Honest(z) { FitsHonest(s, size, packet, lane, feed[..k], d, z); }
    r := d.DecodeFeed(b.id, ByteAt(b.data, lane), |b.data|);
    forall z: Vec | Fits(s, size, packet, lane, feed[..k + 1], z) ensures Agrees(s, d.ids, d.input, z) {
      FitsLess(s, size, packet, lane, feed, k, z);
      if d.SizeOk(b.id, |b.data|) {
        TakenAsStored(s, size, packet, lane, d, b, z);
        HonestIs(d, z);
      }
    }
  }

  /** Feed a decoder with the lane of the blocks. */
  method DecodeLane(s: System, packet: nat, size: nat, lane: nat, memory: Vec, feed: seq<Session.Block>)
    returns (r: Codec.Result, d: Codec.Codec, cells: seq<Byte>)
    requires Coded(s, size, packet) && |memory| == s.Size() + 1 && lane < packet
    ensures fresh(d) && (d.solver == null || (fresh(d.solver) && fresh(d.solver.elim))) && |cells| == s.code.n
    ensures r == Codec.Success && d.Reached() ==> WritesLane(s, size, packet, feed, lane, cells)
    ensures r == Codec.Success && WithinLimit(s) ==> d.Reached()
    ensures r == Codec.Success || r == Codec.Result.NeedMore || Refuses(s, size, packet, feed, d)
    ensures ValidSystem(s) && (|feed| <= s.code.n + MAX_EXTRA_ROWS ==> r == Told(FedBlocks(s, size, packet, feed)))
  {
    hide Codec.Codec.Reached, RowLeft, Codeword, ValidSystem, Codec.Codec.Honest, Codec.Codec.Valid, AgreesSoFar,
      Codec.Codec.UsedUp, FedBlocks;
    CodedSize(s, size, packet);
    d := new Codec.Codec.Decoder(s, packet, lane, FinalBytes(size, packet), memory);
    AgreesNone(s, size, packet, lane, feed[..0]);
    FedBlocksNone(s, size, packet, feed[..0]);
    cells := seq(s.code.n, _ => ZERO);
    r := Codec.Result.NeedMore;
    var k := 0;
    while k < |feed| && r == Codec.Result.NeedMore
      invariant 0 <= k <= |feed| && fresh(d) && fresh(d.peeler) && Decodes(s, size, packet, lane, d, feed, k)
        && (d.solver == null || (fresh(d.solver) && fresh(d.solver.elim)))
      invariant r == Codec.Result.NeedMore ==> d.status == Codec.Feeding || d.status == Codec.Waiting
      invariant r == Codec.Success ==> d.Recoverable()
      invariant r == Codec.Success || r == Codec.Result.NeedMore || Refuses(s, size, packet, feed, d)
      invariant |feed| <= s.code.n + MAX_EXTRA_ROWS ==> r == Told(FedBlocks(s, size, packet, feed[..k]))
    {
      r := FeedBlock(s, packet, size, lane, d, feed, k);
      k := k + 1;
    }
    if |feed| <= s.code.n + MAX_EXTRA_ROWS { FedBlocksStop(s, size, packet, feed, k); }
    if r == Codec.Success {
      cells := WriteLane(s, packet, size, lane, d, feed[..k]);
      if d.Reached() { WritesMore(s, size, packet, feed, k, lane, cells); }
      if WithinLimit(s) { d.ReachedWhenDecoded(); }
    }
  }

  lemma FedBlocksNone(s: System, size: nat, packet: nat, feed: seq<Session.Block>)
    requires ValidSystem(s) && packet >= 1 && feed == []
    ensures FedBlocks(s, size, packet, feed) == Some(Codec.Intake([], true, Codec.Feeding))
  {}

  /** The only reasons for a decoder to give up: a block of the wrong size, originals with a repeat, and spare
      rows all used up. */
  ghost predicate Refuses(s: System, size: nat, packet: nat, feed: seq<Session.Block>, d: Codec.Codec)
    requires packet >= 1
    reads d, d.solver, if d.solver == null then {} else {d.solver.elim}
  {
    d.status == Codec.Broken || d.UsedUp() || exists k :: 0 <= k < |feed| && WrongSize(s, size, packet, feed[k])
  }

  /** Feed blocks, whatever they are, and write the message once there are enough. Decoding stops at the
      first block after which the decoders do not all ask for more. As long as no spare row has to be used again,
      ids and sizes decide what comes of it. */
  method DecodeBlocks(s: System, packet: nat, size: nat, memory: Vec, feed: seq<Session.Block>)
    returns (outcome: Session.Outcome, decoders: seq<Codec.Codec>)
    requires Coded(s, size, packet) && |memory| == s.Size() + 1
    ensures |decoders| == packet
    ensures outcome.Recovered? && Codec.AllReached(decoders) ==> Writes(s, size, packet, feed, outcome.message)
    ensures outcome.Recovered? && WithinLimit(s) ==> Codec.AllReached(decoders)
    ensures outcome.Recovered? || outcome.NeedMore? || outcome.Failed?
    ensures outcome.Failed? ==> exists l :: 0 <= l < packet && Refuses(s, size, packet, feed, decoders[l])
    ensures ValidSystem(s) && (|feed| <= s.code.n + MAX_EXTRA_ROWS ==>
      AsTold(outcome, Told(FedBlocks(s, size, packet, feed))))
  {
    hide Codec.Codec.Reached, Coded, WritesLane, Refuses, FedBlocks;
    CodedSize(s, size, packet);
    var lanes: seq<seq<Byte>> := [];
    var all, failed := true, false;
    ghost var bad: nat := 0;
    decoders := [];
    while |lanes| < packet
      invariant |lanes| == |decoders| <= packet && forall l :: 0 <= l < |lanes| ==> |lanes[l]| == s.code.n
      invariant all ==> forall l :: 0 <= l < |lanes| && decoders[l].Reached() ==>
        WritesLane(s, size, packet, feed, l, lanes[l])
      invariant all && WithinLimit(s) ==> forall l :: 0 <= l < |lanes| ==> decoders[l].Reached()
      invariant failed ==> bad < |lanes| && Refuses(s, size, packet, feed, decoders[bad])
      invariant if lanes == [] then all && !failed else |feed| <= s.code.n + MAX_EXTRA_ROWS ==>
        var r := Told(FedBlocks(s, size, packet, feed));
        all == (r == Codec.Success) && failed == (r != Codec.Success && r != Codec.Result.NeedMore)
    {
      var r, d, cells := DecodeLane(s, packet, size, |lanes|, memory, feed);
      if r != Codec.Success && r != Codec.Result.NeedMore { bad := |lanes|; }
      all, failed := all && r == Codec.Success, failed || (r != Codec.Success && r != Codec.Result.NeedMore);
      lanes, decoders := lanes + [cells], decoders + [d];
    }
    if all {
      outcome := Session.Recovered(Joined(lanes, s.code.n, packet, size));
      if Codec.AllReached(decoders) { JoinedWrites(s, size, packet, feed, lanes); }
    } else {
      outcome := if failed then Session.Failed else Session.NeedMore;
    }
  }

  // ---------- Both together ----------

  /** A block as it was sent, with anything behind it up to the packet size. */
  ghost predicate Arrives(s: System, message: Bytes, packet: nat, zs: seq<Vec>, b: Session.Block, block: Bytes)
    requires Coded(s, |message|, packet) && |zs| == packet
  {
    b.id < 0x1_0000 && SentBlock(s, message, packet, zs, b.id, block) && block <= b.data && |b.data| <= packet
  }

  /** Such a block is taken as a row of the codeword in every lane. */
  lemma ArrivedTaken(s: System, message: Bytes, packet: nat, zs: seq<Vec>, lane: nat, b: Session.Block, block: Bytes)
    requires Coded(s, |message|, packet) && |zs| == packet && lane < packet && Arrives(s, message, packet, zs, b, block)
    ensures |zs[lane]| == s.Size() && Codeword(s, zs[lane]) && Takes(s, |message|, packet, lane, b, zs[lane])
    ensures forall i: nat :: i < s.code.n ==> RowLeft(s, i, zs[lane]) == InBlock(message, packet, lane, i)
  {
    hide RowLeft, ValidSystem, Codeword, InBlock;
    CodedSize(s, |message|, packet);
    if lane < |block| {
      assert ByteAt(b.data, lane) == ByteAt(block, lane);
    } else if b.id + 1 == s.code.n {
      EndIsZero(message, packet, s.code.n, lane);
    }
  }

  ghost predicate Arrived(s: System, message: Bytes, packet: nat, zs: seq<Vec>, b: Session.Block)
    requires Coded(s, |message|, packet) && |zs| == packet
  {
    exists block: Bytes :: Arrives(s, message, packet, zs, b, block)
  }

  /** What is written from blocks that were sent is the message they were made from. */
  lemma WrittenIsMessage(s: System, message: Bytes, packet: nat, zs: seq<Vec>, feed: seq<Session.Block>, written: Bytes)
    requires Coded(s, |message|, packet) && |zs| == packet && Writes(s, |message|, packet, feed, written)
    requires forall l :: 0 <= l < packet ==> CodesLane(s, message, packet, l, zs[l])
    requires forall k :: 0 <= k < |feed| ==> Arrived(s, message, packet, zs, feed[k])
    ensures written == message
  {
    hide RowLeft, ValidSystem, Codeword, Takes, HasLane, InBlock, Arrives, CodesLane;
    CodedSize(s, |message|, packet);
    var n := s.code.n;
    forall lane: nat, i: nat | lane < packet && i < n && HasLane(|message|, packet, n, lane, i)
      ensures InBlock(written, packet, lane, i) == InBlock(message, packet, lane, i)
    {
      LaneSize(s, message, packet, lane, zs[lane]);
      forall k | 0 <= k < |feed| ensures Takes(s, |message|, packet, lane, feed[k], zs[lane]) {
        assert Arrived(s, message, packet, zs, feed[k]);
        var block: Bytes :| Arrives(s, message, packet, zs, feed[k], block);
        ArrivedTaken(s, message, packet, zs, lane, feed[k], block);
      }
      assert WritesLane(s, |message|, packet, feed, lane, LaneOf(written, packet, n, lane));
      assert LaneOf(written, packet, n, lane)[i] == RowLeft(s, i, zs[lane]);
    }
    SameLanes(written, message, packet, n);
  }

  /** One of the blocks that were sent arrives, with some padding behind it. */
  datatype Arrival = Arrival(which: nat, padding: Bytes)

  function Feed(packet: nat, ids: seq<nat>, blocks: seq<Bytes>, arrivals: seq<Arrival>): (feed: seq<Session.Block>)
    requires 0 < |ids| == |blocks|
    ensures |feed| == |arrivals|
  {
    seq(|arrivals|, k requires 0 <= k < |arrivals| =>
      var which := arrivals[k].which % |ids|;
      Session.Block(ids[which], Cut(blocks[which] + arrivals[k].padding, packet)))
  }

  function Cut(data: Bytes, packet: nat): Bytes {
    if |data| <= packet then data else data[..packet]
  }

  lemma FeedArrives(s: System, message: Bytes, packet: nat, zs: seq<Vec>, ids: seq<nat>, blocks: seq<Bytes>,
    arrivals: seq<Arrival>)
    requires Coded(s, |message|, packet) && |zs| == packet && 0 < |ids| == |blocks|
    requires forall k :: 0 <= k < |ids| ==> ids[k] < 0x1_0000 && SentBlock(s, message, packet, zs, ids[k], blocks[k])
    ensures forall k :: 0 <= k < |arrivals| ==> Arrived(s, message, packet, zs, Feed(packet, ids, blocks, arrivals)[k])
  {
    hide Coded, SentBlock, Arrived;
    forall k | 0 <= k < |arrivals| ensures Arrived(s, message, packet, zs, Feed(packet, ids, blocks, arrivals)[k]) {
      var which := arrivals[k].which % |ids|;
      SentArrives(s, message, packet, zs, Feed(packet, ids, blocks, arrivals)[k], blocks[which], arrivals[k].padding);
    }
  }

  /** Blocks of a message are sent and arrive, any of them any number of times and in any order, padded and
      cut to the packet size. What is recovered is the message. */
  method Relay(s: System, packet: nat, message: Bytes, memory: Vec, memory': Vec, ids: seq<nat>, arrivals: seq<Arrival>)
    returns (outcome: Session.Outcome, encoders: seq<Codec.Codec>, decoders: seq<Codec.Codec>)
    requires Coded(s, |message|, packet) && |memory| == |memory'| == s.Size() + 1
    requires forall k :: 0 <= k < |ids| ==> ids[k] < 0x1_0000
    ensures outcome.Recovered? && Codec.AllReached(encoders) && Codec.AllReached(decoders) ==>
      outcome.message == message
    ensures outcome.Recovered? && WithinLimit(s) ==> Codec.AllReached(encoders) && Codec.AllReached(decoders)
  {
    hide Codec.AllReached, Coded, Writes, SentBlock, CodesLane;
    var ok, blocks;
    ghost var zs;
    decoders := [];
    ok, blocks, encoders, zs := EncodeBlocks(s, packet, message, memory, ids);
    if !ok || ids == [] {
      return Session.NeedMore, encoders, decoders;
    }
    var feed := Feed(packet, ids, blocks, arrivals);
    ghost var reached := Codec.AllReached(encoders);
    if reached { FeedArrives(s, message, packet, zs, ids, blocks, arrivals); }
    outcome, decoders := DecodeBlocks(s, packet, |message|, memory', feed);
    if outcome.Recovered? && reached && Codec.AllReached(decoders) {
      AllCoded(s, message, packet, zs, ids[0], blocks[0]);
      WrittenIsMessage(s, message, packet, zs, feed, outcome.message);
    }
  }

  lemma SentArrives(s: System, message: Bytes, packet: nat, zs: seq<Vec>, b: Session.Block, block: Bytes,
    padding: Bytes)
    requires Coded(s, |message|, packet) && |zs| == packet && b.id < 0x1_0000
      && SentBlock(s, message, packet, zs, b.id, block)
    requires b.data == Cut(block + padding, packet)
    ensures Arrived(s, message, packet, zs, b)
  {
    hide RowLeft, ValidSystem, Codeword, CodesLane, HasRow;
    CodedSize(s, |message|, packet);
    assert Arrives(s, message, packet, zs, b, block);
  }

  lemma AllCoded(s: System, message: Bytes, packet: nat, zs: seq<Vec>, id: nat, block: Bytes)
    requires Coded(s, |message|, packet) && |zs| == packet && SentBlock(s, message, packet, zs, id, block)
    ensures forall l :: 0 <= l < packet ==> CodesLane(s, message, packet, l, zs[l])
  {
    hide RowLeft, ValidSystem, Codeword, CodesLane, HasRow;
  }

  // ---------- As a function ----------

  /** All blocks of a message, as EncodeBlocks makes them. */
  ghost predicate Sends(fec: Session.Fec, s: System, message: Bytes, packet: nat)
    requires Coded(s, |message|, packet)
  {
    exists zs: seq<Vec> :: |zs| == packet && SendsAs(fec, s, message, packet, zs)
  }

  ghost predicate SendsAs(fec: Session.Fec, s: System, message: Bytes, packet: nat, zs: seq<Vec>)
    requires Coded(s, |message|, packet) && |zs| == packet
  {
    forall id: nat :: SentBlock(s, message, packet, zs, id, fec.encode(message, packet, id))
  }

  /** An erasure code that sends what EncodeBlocks makes and recovers what DecodeBlocks writes, for each size of
      message and packet with a code of its own, if that can be encoded. Both promise that for codes in which
      no entry is passed over. */
  ghost predicate KeepsPromises(fec: Session.Fec, systems: (nat, nat) -> System) {
    && (forall size: nat, packet: nat :: fec.accepts(size, packet) ==>
          Coded(systems(size, packet), size, packet) && Codec.Encodable(systems(size, packet)))
    && (forall message: Bytes, packet: nat :: fec.accepts(|message|, packet) ==>
          var s := systems(|message|, packet);
            WithinLimit(s) ==> Sends(fec, s, message, packet))
    && (forall size: nat, packet: nat, feed: seq<Session.Block> :: fec.decode(size, packet, feed).Recovered? ==>
          && fec.accepts(size, packet)
          && (WithinLimit(systems(size, packet)) ==> Writes(systems(size, packet), size, packet, feed,
            fec.decode(size, packet, feed).message)))
    && (forall size: nat, packet: nat, feed: seq<Session.Block> :: fec.accepts(size, packet) ==>
          OutcomeKept(systems(size, packet), size, packet, feed, fec.decode(size, packet, feed)))
  }

  /** As long as no spare row has to be used again. */
  ghost predicate OutcomeKept(s: System, size: nat, packet: nat, feed: seq<Session.Block>, outcome: Session.Outcome) {
    ValidSystem(s) && packet >= 1 && |feed| <= s.code.n + MAX_EXTRA_ROWS ==>
      AsTold(outcome, Told(FedBlocks(s, size, packet, feed)))
  }

  /** Honest blocks have arrived as they were sent. */
  lemma HonestArrived(fec: Session.Fec, s: System, message: Bytes, packet: nat, zs: seq<Vec>, b: Session.Block)
    requires Coded(s, |message|, packet) && |zs| == packet && SendsAs(fec, s, message, packet, zs)
    requires Session.HonestBlock(fec, message, packet, b)
    ensures Arrived(s, message, packet, zs, b)
  {
    hide SentBlock;
    assert Arrives(s, message, packet, zs, b, fec.encode(message, packet, b.id));
  }

  /** Blocks of a message fit their packet, and nothing else is recovered from them. */
  lemma PromisesSound(fec: Session.Fec, systems: (nat, nat) -> System, message: Bytes, packet: nat)
    requires KeepsPromises(fec, systems) && fec.accepts(|message|, packet) && WithinLimit(systems(|message|, packet))
    ensures Session.SoundFor(fec, message, packet)
  {
    hide Session.AllHonest, Coded, SentBlock, Writes, WithinLimit, Codec.Encodable;
    var s := systems(|message|, packet);
    var zs: seq<Vec> :| |zs| == packet && SendsAs(fec, s, message, packet, zs);
    forall id: nat ensures |fec.encode(message, packet, id)| <= packet {
      SentFits(s, message, packet, zs, id, fec.encode(message, packet, id));
    }
    forall feed: seq<Session.Block> | Session.AllHonest(fec, message, packet, feed)
      ensures Session.OnlyRecovers(fec.decode(|message|, packet, feed), message)
    {
      if fec.decode(|message|, packet, feed).Recovered? {
        PromisesRecover(fec, systems, message, packet, zs, feed);
      }
    }
  }

  lemma SentFits(s: System, message: Bytes, packet: nat, zs: seq<Vec>, id: nat, block: Bytes)
    requires Coded(s, |message|, packet) && |zs| == packet && SentBlock(s, message, packet, zs, id, block)
    ensures |block| <= packet
  {
    hide RowLeft, ValidSystem, Codeword, CodesLane, HasRow;
    CodedSize(s, |message|, packet);
  }

  lemma PromisesRecover(fec: Session.Fec, systems: (nat, nat) -> System, message: Bytes, packet: nat, zs: seq<Vec>,
    feed: seq<Session.Block>)
    requires KeepsPromises(fec, systems) && Session.AllHonest(fec, message, packet, feed)
    requires fec.decode(|message|, packet, feed).Recovered? && WithinLimit(systems(|message|, packet))
    requires |zs| == packet && SendsAs(fec, systems(|message|, packet), message, packet, zs)
    ensures fec.decode(|message|, packet, feed).message == message
  {
    hide Session.HonestBlock, Coded, Writes, SendsAs, Arrived, WithinLimit, Codec.Encodable;
    var s := systems(|message|, packet);
    forall k | 0 <= k < |feed| ensures Arrived(s, message, packet, zs, feed[k]) {
      HonestArrived(fec, s, message, packet, zs, feed[k]);
    }
    SendsCoded(fec, s, message, packet, zs);
    WrittenIsMessage(s, message, packet, zs, feed, fec.decode(|message|, packet, feed).message);
  }

  /** So the codec is an erasure code as the session needs one. */
  lemma CodecIsSound(u: Session.Setup, systems: (nat, nat) -> System)
    requires KeepsPromises(u.fec, systems)
    requires forall size: nat :: Session.Codable(u, size) ==>
      WithinLimit(systems(size, Session.PacketFor(u.maxDatagram, size)))
    ensures Session.Sound(u)
  {
    hide KeepsPromises, Session.SoundFor, WithinLimit;
    forall message: Bytes | Session.Codable(u, |message|)
      ensures Session.SoundFor(u.fec, message, Session.PacketFor(u.maxDatagram, |message|))
    {
      PromisesSound(u.fec, systems, message, Session.PacketFor(u.maxDatagram, |message|));
    }
  }

  // ---------- When the codec is done ----------

  /** What the decoder says follows from the ids of honest blocks, until a spare row has to be used again. */
  ghost function VerdictOf(s: System, size: nat, packet: nat, ids: seq<nat>): Session.Verdict
    requires ValidSystem(s) && packet >= 1
  {
    var st := Codec.FedAll(s, packet, FinalBytes(size, packet), ids);
    if |ids| > s.code.n + MAX_EXTRA_ROWS || st.status == Codec.Broken then Session.Lost
    else if st.Done() then Session.Enough else Session.More
  }

  ghost function CodecVerdict(u: Session.Setup, systems: (nat, nat) -> System): (nat, seq<nat>) -> Session.Verdict {
    (total: nat, ids: seq<nat>) =>
      var packet := Session.PacketFor(u.maxDatagram, total);
      if ValidSystem(systems(total, packet)) then VerdictOf(systems(total, packet), total, packet, ids)
      else Session.Lost
  }

  lemma HonestSized(fec: Session.Fec, s: System, message: Bytes, packet: nat, zs: seq<Vec>, b: Session.Block)
    requires Coded(s, |message|, packet) && |zs| == packet && SendsAs(fec, s, message, packet, zs)
    requires Session.HonestBlock(fec, message, packet, b)
    ensures packet >= 1 && !WrongSize(s, |message|, packet, b) && b.id < 0x1_0000
    ensures Expected(b.id, s.code.n, packet, FinalBytes(|message|, packet),
      SentBytes(b.id, s.code.n, packet, FinalBytes(|message|, packet)))
  {
    hide RowLeft, ValidSystem, Codeword, CodesLane, HasRow;
    CodedSize(s, |message|, packet);
    assert SentBlock(s, message, packet, zs, b.id, fec.encode(message, packet, b.id));
  }

  /** Honest blocks are fed as rows of their ids. */
  lemma {:induction false} FedAsSent(fec: Session.Fec, s: System, message: Bytes, packet: nat, zs: seq<Vec>,
    feed: seq<Session.Block>)
    requires Coded(s, |message|, packet) && |zs| == packet && SendsAs(fec, s, message, packet, zs)
    requires Session.AllHonest(fec, message, packet, feed)
    ensures ValidSystem(s) && packet >= 1
    ensures FedBlocks(s, |message|, packet, feed)
      == Some(Codec.FedAll(s, packet, FinalBytes(|message|, packet), Session.Ids(feed)))
  {
    hide Coded, SendsAs, Session.HonestBlock, Codec.Fed;
    CodedSize(s, |message|, packet);
    if feed != [] {
      var k := |feed| - 1;
      FedAsSent(fec, s, message, packet, zs, feed[..k]);
      HonestSized(fec, s, message, packet, zs, feed[k]);
      assert Session.Ids(feed)[..k] == Session.Ids(feed[..k]);
    }
  }

  lemma NotEmpty(s: System, message: Bytes, packet: nat, zs: seq<Vec>, id: nat, block: Bytes)
    requires Coded(s, |message|, packet) && |zs| == packet && SentBlock(s, message, packet, zs, id, block)
    ensures block != []
  {
    hide RowLeft, ValidSystem, Codeword, CodesLane, HasRow;
    CodedSize(s, |message|, packet);
  }

  /** So the verdict holds of the codec. */
  lemma VerdictHolds(fec: Session.Fec, systems: (nat, nat) -> System, u: Session.Setup, message: Bytes)
    requires KeepsPromises(fec, systems) && u.fec == fec && Session.Codable(u, |message|)
    requires WithinLimit(systems(|message|, Session.PacketFor(u.maxDatagram, |message|)))
    ensures Session.TimelyFor(fec, message, Session.PacketFor(u.maxDatagram, |message|), CodecVerdict(u, systems))
  {
    hide Session.AllHonest, Coded, SentBlock, Writes, WithinLimit, Codec.Encodable, VerdictOf;
    var packet := Session.PacketFor(u.maxDatagram, |message|);
    var s := systems(|message|, packet);
    var zs: seq<Vec> :| |zs| == packet && SendsAs(fec, s, message, packet, zs);
    forall id: nat ensures fec.encode(message, packet, id) != [] {
      NotEmpty(s, message, packet, zs, id, fec.encode(message, packet, id));
    }
    forall feed: seq<Session.Block> | feed != [] && Session.AllHonest(fec, message, packet, feed)
      ensures Session.Agreed(fec.decode(|message|, packet, feed),
        CodecVerdict(u, systems)(|message|, Session.Ids(feed)))
    {
      FedAsSent(fec, s, message, packet, zs, feed);
      assert OutcomeKept(s, |message|, packet, feed, fec.decode(|message|, packet, feed));
      AgreesWithVerdict(s, |message|, packet, feed, fec.decode(|message|, packet, feed));
    }
  }

  lemma AgreesWithVerdict(s: System, size: nat, packet: nat, feed: seq<Session.Block>, outcome: Session.Outcome)
    requires ValidSystem(s) && packet >= 1 && OutcomeKept(s, size, packet, feed, outcome)
    requires FedBlocks(s, size, packet, feed)
      == Some(Codec.FedAll(s, packet, FinalBytes(size, packet), Session.Ids(feed)))
    ensures Session.Agreed(outcome, VerdictOf(s, size, packet, Session.Ids(feed)))
  {
    hide FedBlocks, Codec.FedAll, ValidSystem;
  }

  /** The blocks of the message itself, in order: they are enough as soon as all of them are there. */
  lemma {:induction false} OriginalsFed(s: System, packet: nat, finalBytes: nat, k: nat)
    requires ValidSystem(s) && s.code.n <= MAX_N && k <= s.code.n
      && Codec.RoomTo(s, Codec.Originals(s.code.n), s.code.n)
    requires 1 <= finalBytes <= packet
    ensures Codec.FedAll(s, packet, finalBytes, Session.UpTo(k))
      == Codec.Intake(Session.UpTo(k), true, if k < s.code.n then Codec.Feeding else Codec.Whole)
  {
    hide ValidSystem, Codec.FedAll, Codec.Fed, Codec.RoomTo;
    CodeSize(s);
    var list := Session.UpTo(k);
    if k > 0 {
      OriginalsFed(s, packet, finalBytes, k - 1);
      Codec.FedNext(s, packet, finalBytes, list, k - 1);
      assert list[..k - 1] == Session.UpTo(k - 1) && list[..k - 1 + 1] == list;
      SentExpected(k - 1, s.code.n, packet, finalBytes);
      OriginalFed(s, k);
    } else {
      assert list == [];
      Codec.FedNone(s, packet, finalBytes);
    }
  }

  lemma OriginalFed(s: System, k: nat)
    requires ValidSystem(s) && 0 < k <= s.code.n && Codec.RoomTo(s, Codec.Originals(s.code.n), s.code.n)
    ensures Codec.Fed(s, Codec.Intake(Session.UpTo(k - 1), true, Codec.Feeding), k - 1, true)
      == Codec.Intake(Session.UpTo(k), true, if k < s.code.n then Codec.Feeding else Codec.Whole)
  {
    hide HasRoom, Uniqueness.Determines;
    var n, all := s.code.n, Codec.Originals(s.code.n);
    assert all[..k - 1] == Session.UpTo(k - 1) && all[k - 1] == k - 1;
    assert HasRoom(s.code, all[..k - 1], all[k - 1]);
    assert Session.UpTo(k - 1) + [k - 1] == Session.UpTo(k);
    forall i | 0 <= i < k ensures i in Session.UpTo(k) { assert Session.UpTo(k)[i] == i; }
  }

  lemma CodecDirect(u: Session.Setup, systems: (nat, nat) -> System)
    requires KeepsPromises(u.fec, systems)
    ensures Session.Direct(u, CodecVerdict(u, systems))
  {
    hide Writes, Sends, Session.CanSend, Codec.RoomTo;
    forall f: Session.Frame, k: nat | Session.CanSend(u, f) && 1 <= k <= Session.BlockCount(u, f)
      ensures Session.DirectAt(u, CodecVerdict(u, systems), f, k)
    {
      Session.CanSendIs(u, f);
      var total := |Session.MessageOf(u, f)|;
      var packet := Session.PacketSize(u, f);
      var s := systems(total, packet);
      CodedSize(s, total, packet);
      CoversCount(s.code.n, total, packet);
      OriginalsFed(s, packet, FinalBytes(total, packet), k);
    }
  }

  lemma CoversCount(n: nat, size: nat, packet: nat)
    requires n >= 1 && packet >= 1 && Covers(n, size, packet)
    ensures n == (size + packet - 1) / packet
  {
    assert (size + packet - 1) / packet >= n by { Quotient(size + packet - 1, packet, n); }
    assert (size + packet - 1) / packet < n + 1 by { QuotientBelow(size + packet - 1, packet, n + 1); }
  }

  lemma Quotient(a: nat, b: nat, n: nat)
    requires b > 0 && n * b <= a
    ensures a / b >= n
  {
    assert a == b * (a / b) + a % b;
    if a / b < n { Larger(b, a / b + 1, n); }
  }

  lemma QuotientBelow(a: nat, b: nat, n: nat)
    requires b > 0 && a < n * b
    ensures a / b < n
  {
    assert a == b * (a / b) + a % b;
    if a / b >= n { Larger(b, n, a / b); }
  }

  lemma PacketLarge(maxDatagram: nat, size: nat)
    requires maxDatagram >= 50
    ensures var packet := Session.PacketFor(maxDatagram, size); packet >= 17 || size <= 2 * packet
  {}

  lemma BlockCount(n: nat, packet: nat, size: nat)
    requires n >= 1 && Covers(n, size, packet) && size <= Session.MAX_PROTECTED_BLOCK_SIZE
    requires packet >= 17 || (packet >= 1 && size <= 2 * packet)
    ensures n <= 32235
  {
    if packet >= 17 {
      Larger(n - 1, 17, packet);
    } else {
      if n > 2 { Larger(packet, 2, n - 1); }
    }
  }

  lemma Larger(a: nat, b: nat, c: nat)
    requires b <= c
    ensures a * b <= a * c
  {}

  /** Datagrams of fifty bytes are enough for every message a session sends to have a code within the limit. */
  lemma SizesWithinLimit(s: System, maxDatagram: nat, size: nat)
    requires maxDatagram >= 50 && 0 < size <= Session.MAX_PROTECTED_BLOCK_SIZE
    requires Coded(s, size, Session.PacketFor(maxDatagram, size))
    ensures WithinLimit(s)
  {
    hide ValidSystem, Covers;
    var packet := Session.PacketFor(maxDatagram, size);
    CodedSize(s, size, packet);
    PacketLarge(maxDatagram, size);
    BlockCount(s.code.n, packet, size);
  }

  /** In such datagrams the codec is the erasure code that the session needs, and it keeps to its verdict. */
  lemma CodecServes(u: Session.Setup, systems: (nat, nat) -> System)
    requires KeepsPromises(u.fec, systems) && u.maxDatagram >= 50
    ensures Session.Sound(u) && Session.Timely(u, CodecVerdict(u, systems))
    ensures Session.Direct(u, CodecVerdict(u, systems))
  {
    hide Session.SoundFor, Session.TimelyFor, WithinLimit, CodecVerdict, Sends, Writes, OutcomeKept, Codec.Encodable,
      Session.Direct;
    forall size: nat | Session.Codable(u, size)
      ensures WithinLimit(systems(size, Session.PacketFor(u.maxDatagram, size)))
    {
      SizesWithinLimit(systems(size, Session.PacketFor(u.maxDatagram, size)), u.maxDatagram, size);
    }
    CodecIsSound(u, systems);
    forall message: Bytes | Session.Codable(u, |message|) ensures Session.TimelyFor(u.fec, message,
      Session.PacketFor(u.maxDatagram, |message|), CodecVerdict(u, systems))
    {
      VerdictHolds(u.fec, systems, u, message);
    }
    CodecDirect(u, systems);
  }

  /** Frames over the codec: whatever is sent, and whatever the network does, they arrive in order, and as soon as
      the ids that have arrived are enough. */
  method RunCodec(u: Session.Setup, ghost systems: (nat, nat) -> System, maxReceived: nat,
    schedule: seq<Session.Event>) returns (sent: seq<Session.Outbound>, emitted: seq<Session.Inbound>)
    requires KeepsPromises(u.fec, systems) && u.maxDatagram >= 50 && u.session < U64
    requires |schedule| < U64 - 1 && forall k :: 0 <= k < |schedule| ==> Session.EventFits(schedule[k])
    ensures sent == Session.Successes(u, schedule)
    ensures forall t: nat :: Session.Steady(u, schedule, t) ==>
      Session.EmittedOn(emitted, t) <= Session.SentOn(sent, t)
        + Session.Trailing(Session.HalfSent(u, schedule, t))
    ensures u.maxDatagram <= maxReceived ==> forall t: nat ::
      Session.Steady(u, schedule, t) && Session.PhaseOf(u, CodecVerdict(u, systems), schedule, t) == Session.Idle ==>
        Session.EmittedOn(emitted, t) == Session.SentOn(sent, t) + Session.Trailing(Session.HalfSent(u, schedule, t))
  {
    hide Session.Sound, Session.Timely, Session.Direct, KeepsPromises, Session.PhaseOf, Session.Steady, CodecVerdict;
    CodecServes(u, systems);
    sent, emitted := Session.Run(u, maxReceived, schedule, CodecVerdict(u, systems));
  }

  /** And when nothing is lost, every frame is handed out. */
  method RunCodecLossless(u: Session.Setup, ghost systems: (nat, nat) -> System, maxReceived: nat,
    sends: seq<Session.Event>) returns (sent: seq<Session.Outbound>, emitted: seq<Session.Inbound>)
    requires KeepsPromises(u.fec, systems) && 50 <= u.maxDatagram <= maxReceived && u.session < U64
    requires forall k :: 0 <= k < |sends| ==>
      sends[k].Send? && Session.WholeSend(u, sends[k]) && Session.EventFits(sends[k])
    requires |Session.Lossless(u, sends)| < U64 - 1
    ensures sent == Session.Outbounds(sends)
    ensures forall t: nat :: Session.EmittedOn(emitted, t) == Session.SentOn(sent, t)
  {
    hide Session.Sound, Session.Timely, Session.Direct, KeepsPromises, CodecVerdict, Session.WholeSend;
    CodecServes(u, systems);
    sent, emitted := Session.RunLossless(u, maxReceived, sends, CodecVerdict(u, systems));
  }

  lemma SendsCoded(fec: Session.Fec, s: System, message: Bytes, packet: nat, zs: seq<Vec>)
    requires Coded(s, |message|, packet) && |zs| == packet && SendsAs(fec, s, message, packet, zs)
    ensures forall l :: 0 <= l < packet ==> CodesLane(s, message, packet, l, zs[l])
  {
    hide CodesLane, HasRow;
    assert SentBlock(s, message, packet, zs, 0, fec.encode(message, packet, 0));
  }
}

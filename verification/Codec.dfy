/** The codec: an encoder turns a message into recovery blocks and sends any row of them, a decoder
    takes rows in any order and gives the message back. One lane of the blocks is modelled, that is
    one byte of every block; lanes beyond the end of a short final block are padded with zero. */
module Codec {
  import opened Finite
  import opened GF256
  import opened Linear
  import opened Rows
  import opened PeelState
  import opened Peeling
  import opened Elimination
  import opened Triangulation
  import opened Sums
  import opened Assembly
  import opened Lengths
  import opened Equations
  import opened Skipping
  import opened Solving
  import opened Uniqueness

  datatype Result = Success | NeedMore | InvalidInput | BadPeelSeed | ExtraInsufficient

  /** Feeding: fewer rows than blocks. Waiting: a pivot is missing. Whole: every original block was
      received. Spent: the same, but the rows did not solve. Decoded: the recovery blocks are known.
      Broken: n original blocks were fed that are not all different. */
  datatype Status = Feeding | Waiting | Whole | Spent | Decoded | Broken

  // ---------- What does not depend on the data ----------

  function Originals(n: nat): seq<nat> { seq(n, i requires 0 <= i => i) }

  /** The encoder can solve: every row of the message finds room, and they determine the codeword. Of a
      message only its number of blocks matters. */
  ghost predicate Encodable(s: System)
    requires ValidSystem(s)
  {
    RoomTo(s, Originals(s.code.n), s.code.n) && Determines(s, Originals(s.code.n))
  }

  /** The first rows with these ids find room one after the other. */
  predicate RoomTo(s: System, ids: seq<nat>, count: nat)
    requires ValidSystem(s) && count <= |ids|
  {
    forall k :: 0 <= k < count ==> HasRoom(s.code, ids[..k], ids[k])
  }

  /** What a decoder knows besides data: the ids of the rows held, in order, whether it has seen nothing but
      original blocks, and where it stands. */
  datatype Intake = Intake(ids: seq<nat>, allOriginal: bool, status: Status) {
    predicate Done() { status == Whole || status == Spent || status == Decoded }
  }

  /** Once there are enough rows: originals are enough if they are all there, others if they determine the
      codeword. */
  ghost function Settled(s: System, ids: seq<nat>, allOriginal: bool): Intake
    requires ValidSystem(s)
  {
    if !allOriginal then Intake(ids, false, if Determines(s, ids) then Decoded else Waiting)
    else if forall i :: 0 <= i < s.code.n ==> i in ids then Intake(ids, true, Whole)
    else Intake(ids, false, Broken)
  }

  /** One more block, which has the right size or has not. */
  ghost function Fed(s: System, st: Intake, id: nat, sized: bool): Intake
    requires ValidSystem(s)
  {
    var n, original := s.code.n, st.allOriginal && id < s.code.n;
    if !sized then st
    else if |st.ids| < n && !HasRoom(s.code, st.ids, id) then st.(allOriginal := original)
    else if |st.ids| + 1 < n then Intake(st.ids + [id], original, Feeding)
    else Settled(s, st.ids + [id], original)
  }

  /** Row q was given up for another. */
  predicate Replaced(ids0: seq<nat>, input0: Vec, ids: seq<nat>, input: Vec, q: nat, id: nat, value: Byte) {
    q < |ids0| == |input0| && ids == ids0[q := id] && input == input0[q := value]
  }

  /** What is answered to a block of the right size that leaves the decoder with this status, when the spare rows
      were used up before or were not. */
  function Answer(status: Status, usedUp: bool): Result {
    match status
    case Broken => InvalidInput
    case Feeding => Result.NeedMore
    case Waiting => if usedUp then Result.ExtraInsufficient else Result.NeedMore
    case _ => Success
  }

  /** Blocks sent under these ids, until there are enough or the originals turn out to have a repeat. */
  ghost function FedAll(s: System, blockBytes: nat, finalBytes: nat, schedule: seq<nat>): Intake
    requires ValidSystem(s)
  {
    if schedule == [] then Intake([], true, Feeding)
    else
      var k, n := |schedule| - 1, s.code.n;
      var st := FedAll(s, blockBytes, finalBytes, schedule[..k]);
      if st.Done() || st.status == Broken then st
      else Fed(s, st, schedule[k],
        Expected(schedule[k], n, blockBytes, finalBytes, SentBytes(schedule[k], n, blockBytes, finalBytes)))
  }

  class Codec {
    const system: System
    const blockBytes: nat
    const lane: nat
    const outputFinal: nat
    const extraCount: nat
    const peeler: Peeler

    var inputFinal: nat
    var allOriginal: bool
    var outOfOrder: bool
    var ids: seq<nat>
    var input: Vec
    var solver: Solver?
    var recovery: Vec
    var status: Status

    /** InitializeEncoder, with the size of the final block. */
    constructor Encoder(system: System, blockBytes: nat, lane: nat, finalBytes: nat, memory: Vec)
      requires ValidSystem(system) && system.code.n <= MAX_N && system.dense <= MAX_DENSE_ROWS
      requires lane < blockBytes && 1 <= finalBytes <= blockBytes && |memory| == system.Size() + 1
      ensures Fixed() && this.system == system && this.blockBytes == blockBytes && this.lane == lane
      ensures fresh(peeler) && Gathering() && |recovery| == system.Size() + 1
      ensures status == Feeding && ids == [] && extraCount == 0 && inputFinal == finalBytes && outputFinal == blockBytes
        && !outOfOrder
      ensures solver == null
    {
      this.system, this.blockBytes, this.lane, outputFinal, extraCount := system, blockBytes, lane, blockBytes, 0;
      inputFinal, allOriginal, outOfOrder := finalBytes, false, false;
      ids, input, solver, recovery, status := [], [], null, memory, Feeding;
      peeler := new Peeler(system.code);
    }

    /** InitializeDecoder. */
    constructor Decoder(system: System, blockBytes: nat, lane: nat, finalBytes: nat, memory: Vec)
      requires ValidSystem(system) && system.code.n <= MAX_N && system.dense <= MAX_DENSE_ROWS
      requires lane < blockBytes && 1 <= finalBytes <= blockBytes && |memory| == system.Size() + 1
      ensures Valid() && this.system == system && this.blockBytes == blockBytes && this.lane == lane
      ensures fresh(peeler) && State() == Intake([], true, Feeding) && extraCount == MAX_EXTRA_ROWS
      ensures outputFinal == finalBytes && inputFinal == blockBytes && outOfOrder && solver == null
    {
      this.system, this.blockBytes, this.lane, outputFinal, extraCount := system, blockBytes, lane, finalBytes,
        MAX_EXTRA_ROWS;
      inputFinal, allOriginal, outOfOrder := blockBytes, true, true;
      ids, input, solver, recovery, status := [], [], null, memory, Feeding;
      peeler := new Peeler(system.code);
    }

    function N(): nat { system.code.n }

    function State(): Intake
      reads `ids, `allOriginal, `status
    {
      Intake(ids, allOriginal, status)
    }

    ghost predicate Fixed() {
      && ValidSystem(system) && N() <= MAX_N && system.dense <= MAX_DENSE_ROWS && peeler.code == system.code
      && lane < blockBytes && 1 <= outputFinal <= blockBytes
    }

    /** Rows are still being read in, or could be. */
    ghost predicate Gathering()
      reads `ids, peeler
    {
      peeler.Feeding() && peeler.ids == ids && |peeler.nextColumns| == N()
    }

    /** The solver works on the rows held. */
    ghost predicate Solves()
      reads `ids, `input, `solver, solver, if solver == null then {} else {solver.elim}
    {
      && solver != null && solver.Valid() && solver.system == system && solver.extraCount == extraCount
      && solver.ids == ids && solver.input == input
    }

    /** The recovery blocks without the temporary one. */
    ghost function Blocks(): (z: Vec)
      requires |recovery| == system.Size() + 1
      reads `recovery
      ensures |z| == system.Size()
    {
      recovery[..system.Size()]
    }

    /** Once solved: back substitution passed over no entry that mattered. */
    ghost predicate Reached()
      reads `status, `solver, solver, if solver == null then {} else {solver.elim}
    {
      status == Decoded ==> solver != null && solver.Reached()
    }

    /** The recovery blocks are what the chosen equations determine. */
    ghost predicate Determined()
      requires Solves() && solver.elim.Complete() && |recovery| == system.Size() + 1
      reads `ids, `input, `solver, `recovery, solver, if solver == null then {} else {solver.elim}
    {
      && solver.UsedHold(Blocks())
      && (forall z: Vec :: |z| == system.Size() && solver.UsedHold(z) ==> z == Blocks())
    }

    /** All spare rows are held, and none of them could be given up. */
    ghost predicate UsedUp()
      reads `ids, `solver, solver, if solver == null then {} else {solver.elim}
    {
      |ids| >= N() + extraCount && (solver == null || solver.NoSlot())
    }

    ghost predicate AllSeen()
      reads `ids
    {
      forall i :: 0 <= i < N() ==> i in ids
    }

    /** A decoder. */
    ghost predicate Valid()
      reads this, peeler, solver, if solver == null then {} else {solver.elim}
    {
      && Fixed() && |ids| == |input| && |recovery| == system.Size() + 1
      && (status.Feeding? || status.Waiting? || status.Whole? ==> inputFinal == blockBytes)
      && match status
         case Feeding => Gathering() && |ids| < N() && (allOriginal ==> forall q :: 0 <= q < |ids| ==> ids[q] < N())
         case Waiting => Solves() && solver.Fresh() && solver.elim.Stuck() && !allOriginal && !solver.pad
         case Whole => Gathering() && |ids| == N() && allOriginal && AllSeen()
         case Spent => allOriginal && AllSeen()
         case Decoded => Solves() && solver.elim.Complete() && !solver.pad && (allOriginal ==> AllSeen())
           && (Reached() ==> Determined())
         case Broken => true
    }

    // ---------- Generating one row ----------

    /** The sparse columns of a row of more than one, the first two at once. */
    method SumColumns(list: seq<nat>) returns (value: Byte)
      requires |recovery| == system.Size() + 1 && |list| > 1 && Within(list, system.Size())
      ensures value == SumOf(list, Blocks())
    {
      hide SumOf, Add;
      ghost var z := Blocks();
      FirstTwo(list, z);
      value := Add(recovery[list[0]], recovery[list[1]]);
      var k := 2;
      while k < |list|
        invariant 2 <= k <= |list| && value == SumOf(list[..k], z)
      {
        SumNext(list, k, z);
        value := Add(value, recovery[list[k]]);
        k := k + 1;
      }
      assert list[..k] == list;
    }

    /** A row from the recovery blocks: its sparse columns and its three mixing columns. */
    method RegenerateRow(id: nat) returns (value: Byte)
      requires ValidSystem(system) && |recovery| == system.Size() + 1
      ensures value == RowLeft(system, id, Blocks())
    {
      hide SumOf, RowColumns, RowMix, ValidCode, Add;
      var list := RowColumns(system.code, id);
      var mix := RowMix(system.code, id);
      var n := N();
      if |list| > 1 {
        value := SumColumns(list);
        value := Add(value, recovery[n + mix[0]]);
      } else {
        OnlyOne(list, Blocks());
        value := Add(recovery[list[0]], recovery[n + mix[0]]);
      }
      ghost var sum := SumOf(list, Blocks());
      value := Add(value, Add(recovery[n + mix[1]], recovery[n + mix[2]]));
      SumThree(MixColumns(system.code, id), Blocks());
      Regroup(sum, recovery[n + mix[0]], recovery[n + mix[1]], recovery[n + mix[2]]);
    }

    /** Codes of up to 32235 blocks never have an entry passed over. */
    lemma ReachedIf()
      requires Solves() && solver.elim.Complete() && N() + system.dense + extraCount <= ROW_LIMIT
      ensures Reached()
    {
      hide Solver.Valid, Solver.Reached;
      solver.DeferLimit();
      solver.FewRows();
    }

    lemma SizesOk()
      requires Valid()
      ensures Fixed() && N() >= 2 && |ids| == |input| && |recovery| == system.Size() + 1
    {}

    lemma ReachedWhenDecoded()
      requires Valid() && N() + system.dense + extraCount <= ROW_LIMIT
      ensures Reached()
    {
      hide Solver.Valid, Solver.Reached;
      if status == Decoded { ReachedIf(); }
    }

    // ---------- Encoder ----------

    /** GenerateRecoveryBlocks, once every pivot is known. */
    method Finish()
      requires Solves() && solver.elim.Complete() && solver.Fresh()
      modifies `recovery, `status, solver
      ensures Solves() && solver.elim.Complete() && solver.pad == old(solver.pad) && |recovery| == system.Size() + 1
      ensures status == Decoded && (Reached() ==> Determined())
    {
      hide Solver.Valid, Eliminator.Complete, Solver.UsedHold;
      solver.Generate();
      solver.RecoverySize();
      recovery := solver.recovery;
      status := Decoded;
    }

    /** Whether every pivot is found follows from the ids of the rows. */
    lemma SolverDecides()
      requires Solves() && ValidSystem(system)
      ensures solver.elim.Complete() ==> Determines(system, ids)
      ensures solver.elim.Stuck() ==> !Determines(system, ids)
    {
      hide Solver.Valid, Eliminator.Stuck, Eliminator.Complete, ValidSystem, Silent;
      if solver.elim.Complete() { CompleteDetermines(solver); }
      if solver.elim.Stuck() { var w := StoppedLeaves(solver); }
    }

    /** Once n rows are in: solve, and generate the recovery blocks if every pivot was found. */
    method SolveNow() returns (ok: bool)
      requires Fixed() && Gathering() && |ids| == N() == |input| && |recovery| == system.Size() + 1
      modifies `solver, `recovery, `status, peeler
      ensures solver != null && fresh(solver) && fresh(solver.elim) && Solves() && solver.pad == (lane >= inputFinal)
      ensures |recovery| == system.Size() + 1
      ensures ok ==> status == Decoded && solver.elim.Complete() && (Reached() ==> Determined())
      ensures !ok ==> status == old(status) && solver.elim.Stuck() && solver.Fresh()
      ensures ok <==> Determines(system, ids)
    {
      hide Peeler.Feeding, Solver.Valid, Eliminator.Stuck, Eliminator.Complete, Solver.UsedHold, Solver.Fresh,
        ValidSystem, Determined, Determines;
      solver, ok := SolveMatrix(peeler, system, extraCount, input, lane >= inputFinal, recovery);
      SolverDecides();
      if ok { Finish(); }
    }

    /** The message with its final block padded. */
    function Padded(message: Vec, i: nat): Byte
      requires i < |message|
      reads `inputFinal
    {
      if lane >= inputFinal && i == N() - 1 then ZERO else message[i]
    }

    /** The recovery blocks encode the message: a codeword whose first n rows are the message. */
    ghost predicate Encodes(message: Vec)
      requires ValidSystem(system)
      reads `recovery, `inputFinal
    {
      && |message| == N() && |recovery| == system.Size() + 1 && Codeword(system, Blocks())
      && (forall i :: 0 <= i < N() ==> RowLeft(system, i, Blocks()) == Padded(message, i))
    }

    /** Read in all rows of the message and solve for the recovery blocks. */
    method EncodeFeed(message: Vec) returns (r: Result)
      requires Fixed() && Gathering() && status == Feeding && ids == [] && extraCount == 0 && |message| == N()
      requires |recovery| == system.Size() + 1
      modifies this, peeler
      ensures inputFinal == old(inputFinal) && outOfOrder == old(outOfOrder) && input == message
      ensures r == if Encodable(system) then Success else BadPeelSeed
      ensures r == Success ==> status == Decoded && Ready() && Generated(message) && (Reached() ==> Encodes(message))
      ensures r == Success && N() + system.dense + extraCount <= ROW_LIMIT ==> Reached()
      ensures solver == old(solver) || (solver != null && fresh(solver) && fresh(solver.elim))
    {
      hide Peeler.Feeding, Solver.Valid, Eliminator.Complete, Eliminator.Stuck, Solver.UsedHold, Solver.Fresh,
        ValidSystem, RowLeft, Codeword,
        Solver.Reached, Encodes, Determined, Determines, HasRoom;
      input := message;
      ghost var all := Originals(N());
      var id := 0;
      while id < N()
        invariant 0 <= id <= N() && Gathering() && ids == all[..id]
        invariant RoomTo(system, all, id)
        modifies peeler, `ids
      {
        var ok := peeler.OpportunisticPeeling(id);
        if !ok {
          return BadPeelSeed;
        }
        ids := ids + [id];
        id := id + 1;
      }
      assert ids == all;
      var ok := SolveNow();
      if !ok {
        return BadPeelSeed;
      }
      if N() + system.dense + extraCount <= ROW_LIMIT { ReachedIf(); }
      if Reached() { Encoded(message); }
      return Success;
    }

    /** The rows of the message are solved. */
    ghost predicate Generated(message: Vec)
      reads `ids, `input, `inputFinal, `solver, solver, if solver == null then {} else {solver.elim}
    {
      && Solves() && solver.elim.Complete() && extraCount == 0 && solver.pad == (lane >= inputFinal)
      && |ids| == N() == |message| && input == message && forall i :: 0 <= i < N() ==> ids[i] == i
    }

    lemma Encoded(message: Vec)
      requires Fixed() && Generated(message) && |recovery| == system.Size() + 1 && Determined()
      ensures Encodes(message)
    {
      hide Solver.UsedHold, Solver.Compressed, ValidSystem, RowLeft, Codeword, Sound, HasAll, NoneIn, Solver.RowMeant,
        Solver.RowFixed;
      solver.UsedIsCodeword(Blocks());
      forall i | 0 <= i < N() ensures RowLeft(system, i, Blocks()) == Padded(message, i) {
        assert solver.InputAt(i) == Padded(message, i); }
    }

    /** How many bytes of a block are sent: the test for the final block looks at 16 bits of the id. */
    function CopyBytes(id: nat): nat
      reads `inputFinal
    {
      SentBytes(id, N(), blockBytes, inputFinal)
    }

    /** Rows can be generated or copied. */
    ghost predicate Ready()
      reads `recovery, `input, `outOfOrder
    {
      && ValidSystem(system) && |recovery| == system.Size() + 1 && lane < blockBytes && N() <= 0x1_0000
      && (!outOfOrder ==> |input| == N())
    }

    /** And those that are copied are those that would be generated. */
    ghost predicate Emits()
      reads `recovery, `input, `inputFinal, `outOfOrder
    {
      Ready() && (!outOfOrder ==> forall i :: 0 <= i < N() ==> RowLeft(system, i, Blocks()) == Padded(input, i))
    }

    /** Row id: copied when the message is at hand, otherwise generated. */
    method Encode(id: nat, outBytes: nat) returns (bytes: nat, value: Byte)
      requires Ready()
      ensures bytes == if outBytes < CopyBytes(id) then 0 else CopyBytes(id)
      ensures lane < bytes && Emits() ==> value == RowLeft(system, id, Blocks())
    {
      hide RowLeft, ValidSystem;
      bytes := if id % 0x1_0000 == N() - 1 then inputFinal else blockBytes;
      if outBytes < bytes {
        return 0, ZERO;
      }
      if id < N() && !outOfOrder {
        value := input[id];
      } else {
        value := RegenerateRow(id);
      }
    }

    // ---------- Decoder ----------

    /** The lane of a block as it is stored: a short final block is padded with zero. */
    function Stored(id: nat, value: Byte): Byte {
      if id + 1 == N() && lane >= outputFinal then ZERO else value
    }

    /** The rows held are rows of the codeword z. */
    ghost predicate Honest(z: Vec)
      requires ValidSystem(system)
      reads `ids, `input
    {
      && |z| == system.Size() && Codeword(system, z) && |ids| == |input|
      && (forall q :: 0 <= q < |ids| ==> input[q] == RowLeft(system, ids[q], z))
    }

    /** Whether every original block is among the rows, told by counting the different ones. */
    method IsAllOriginalData() returns (all: bool)
      ensures all <==> AllSeen()
    {
      var copied := seq(N(), _ => false);
      var seen := 0;
      var row := 0;
      ghost var found: set<nat> := {};
      while row < |ids|
        invariant 0 <= row <= |ids| && |copied| == N() && seen == |found|
        invariant forall i: nat :: i in found <==> i < N() && i in ids[..row]
        invariant forall i :: 0 <= i < N() ==> (copied[i] <==> i in found)
      {
        var id := ids[row];
        if id < N() && !copied[id] {
          copied := copied[id := true];
          seen := seen + 1;
          found := found + {id};
        }
        row := row + 1;
      }
      assert ids[..row] == ids;
      RangeFull(N(), found);
      if AllSeen() {
        assert forall i :: 0 <= i < N() ==> i in found;
        var range := seq(N(), i => i);
        ElementsSize(range);
        SubsetSize(Elements(range), found);
      }
      all := seen >= N();
    }

    /** The block has as many bytes as blocks of this id have. */
    predicate SizeOk(id: nat, bytes: nat) {
      Expected(id, N(), blockBytes, outputFinal, bytes)
    }

    lemma EnoughRows()
      requires Valid()
      ensures status == Waiting ==> |ids| >= N() && solver != null
      ensures status == Feeding ==> |ids| < N()
    {
      hide Peeler.Feeding, Solver.Compressed, Solver.RowMeant, Solver.RowFixed, Sound, HasAll, NoneIn, Eliminator.Stuck,
        Solver.Fresh, Determined;
    }

    lemma MoreRows()
      requires Valid() && status == Waiting
      ensures solver != null && Solves() && solver.elim.Stuck() && ValidSystem(system)
      ensures solver.Full() <==> |ids| >= N() + extraCount
    {
      hide Solver.Valid, Eliminator.Stuck, Solver.Fresh, ValidSystem;
    }

    /** A row beyond the first n: the solver goes on from where it stopped. */
    method FeedMore(id: nat, value: Byte) returns (r: Result)
      requires Valid() && status == Waiting
      modifies `ids, `input, `recovery, `status, solver, solver.elim
      ensures Valid()
      ensures forall z: Vec :: old(Honest(z)) && value == RowLeft(system, id, z) ==> Honest(z)
      ensures r == Answer(status, old(UsedUp())) && status == if Determines(system, ids) then Decoded else Waiting
      ensures old(UsedUp()) ==> UsedUp() && ids == old(ids) && input == old(input)
      ensures |old(ids)| < N() + extraCount ==> ids == old(ids) + [id] && input == old(input) + [value]
      ensures |old(ids)| >= N() + extraCount && !old(UsedUp()) ==> exists q: nat ::
        N() <= q && Replaced(old(ids), old(input), ids, input, q, id, value)
    {
      hide Peeler.Feeding, Solver.Valid, Eliminator.Stuck, Eliminator.Complete, Solver.UsedHold, Solver.Fresh, RowLeft,
        Codeword, ValidSystem,
        Solver.NoSlot, Determined, Determines;
      MoreRows();
      ghost var ids0, input0 := ids, input;
      var resumed;
      ghost var q;
      resumed, q := solver.Resume(id, value);
      ids, input := solver.ids, solver.input;
      if |ids0| >= N() + extraCount && resumed != Resumed.ExtraInsufficient {
        assert Replaced(ids0, input0, ids, input, q, id, value);
      }
      SolverDecides();
      if resumed == Solved {
        Finish();
        r := Success;
      } else {
        r := if resumed == Resumed.NeedMore then Result.NeedMore else Result.ExtraInsufficient;
      }
    }

    /** The n-th row is in: either all are original blocks, which are enough, or the rows are solved. */
    method Settle() returns (r: Result)
      requires Fixed() && Gathering() && |ids| == |input| == N() && |recovery| == system.Size() + 1
        && inputFinal == blockBytes
      requires allOriginal ==> forall q :: 0 <= q < N() ==> ids[q] < N()
      modifies `allOriginal, `status, `solver, `recovery, peeler
      ensures Valid()
      ensures solver == old(solver) || (fresh(solver) && solver != null && fresh(solver.elim))
      ensures r == Answer(status, false) && status != Spent
      ensures status == Broken ==> (forall q :: 0 <= q < N() ==> ids[q] < N()) && !AllSeen()
      ensures State() == Settled(system, ids, old(allOriginal)) && (status == Broken ==> solver == old(solver))
    {
      hide Peeler.Feeding, Solver.Valid, Eliminator.Stuck, Eliminator.Complete, Solver.UsedHold, Solver.Fresh,
        ValidSystem, Determined, Determines;
      if allOriginal {
        var whole := IsAllOriginalData();
        if !whole {
          allOriginal, status := false, Broken;
          return InvalidInput;
        }
        status := Whole;
        return Success;
      }
      var ok := SolveNow();
      if !ok {
        status := Waiting;
        return Result.NeedMore;
      }
      r := Success;
    }

    /** One of the first n rows. */
    method FeedFirst(id: nat, value: Byte) returns (r: Result)
      requires Valid() && status == Feeding && (allOriginal ==> id < N())
      modifies `ids, `input, `allOriginal, `status, `solver, `recovery, peeler
      ensures Valid()
      ensures solver == old(solver) || (fresh(solver) && solver != null && fresh(solver.elim))
      ensures if ids == old(ids) then input == old(input) else ids == old(ids) + [id] && input == old(input) + [value]
      ensures State() == Fed(system, old(State()), id, true)
      ensures status == Broken || status == Feeding ==> solver == old(solver)
      ensures r == Answer(status, false) && status != Spent
      ensures status == Broken ==> |ids| == N() && (forall q :: 0 <= q < N() ==> ids[q] < N()) && !AllSeen()
    {
      hide Peeler.Feeding, Solves, ValidSystem, Determined, Settled, HasRoom;
      var ok := peeler.OpportunisticPeeling(id);
      if !ok {
        return Result.NeedMore;
      }
      ids, input := ids + [id], input + [value];
      if |ids| != N() {
        return Result.NeedMore;
      }
      r := Settle();
    }

    /** Take one more block. */
    method DecodeFeed(id: nat, value: Byte, bytes: nat) returns (r: Result)
      requires Valid() && (status == Feeding || status == Waiting)
      modifies this, peeler, solver, if solver == null then {} else {solver.elim}
      ensures Valid()
      ensures solver == old(solver) || (fresh(solver) && solver != null && fresh(solver.elim))
      ensures !SizeOk(id, bytes) ==>
        r == InvalidInput && status == old(status) && ids == old(ids)
        && input == old(input)
      ensures forall z: Vec :: old(Honest(z)) && Stored(id, value) == RowLeft(system, id, z) ==> Honest(z)
      ensures status != Spent && r == if SizeOk(id, bytes) then Answer(status, old(UsedUp())) else InvalidInput
      ensures r == Result.ExtraInsufficient ==> UsedUp()
      ensures status == Broken ==> |ids| == N() && (forall q :: 0 <= q < N() ==> ids[q] < N()) && !AllSeen()
      ensures outOfOrder == old(outOfOrder) && inputFinal == old(inputFinal)
      ensures |old(ids)| < N() + extraCount ==> State() == Fed(system, old(State()), id, SizeOk(id, bytes))
      ensures status == Broken || status == Feeding ==> solver == old(solver)
    {
      hide Peeler.Feeding, Gathering, Solves, Determined, Solver.Fresh, Eliminator.Stuck, Eliminator.Complete, RowLeft,
        Codeword, ValidSystem, Determines, HasRoom;
      EnoughRows();
      if id + 1 == N() {
        if outputFinal > bytes {
          return InvalidInput;
        }
      } else if blockBytes != bytes {
        return InvalidInput;
      }
      if id >= N() {
        allOriginal := false;
      }
      if |ids| >= N() {
        r := FeedMore(id, Stored(id, value));
      } else {
        r := FeedFirst(id, Stored(id, value));
      }
    }

    /** Enough was received. */
    predicate Recoverable()
      reads `status
    {
      status == Whole || status == Spent || status == Decoded
    }

    /** The decoder has the one codeword that its rows are rows of. */
    lemma BlocksAre(z: Vec)
      requires Valid() && status == Decoded && solver != null && Reached() && Honest(z)
      ensures Blocks() == z
    {
      hide Peeler.Feeding, Solver.UsedHold, Solver.Compressed, Solver.RowMeant, Solver.RowFixed, Codeword, RowLeft,
        ValidSystem, Sound, HasAll, NoneIn,
        Gathering;
      assert solver.RowsHold(z);
      solver.CodewordUsed(z);
    }

    /** v is what was received last as block i. */
    ghost predicate Copied(i: nat, rows: nat, v: Byte)
      requires rows <= |ids| == |input|
      reads `ids, `input
    {
      exists q :: 0 <= q < rows && ids[q] == i && input[q] == v && forall p :: q < p < rows ==> ids[p] != i
    }

    /** v is block i, received or generated. */
    ghost predicate Written(i: nat, v: Byte)
      requires ValidSystem(system) && |ids| == |input| && |recovery| == system.Size() + 1
      reads `ids, `input, `recovery
    {
      Copied(i, |ids|, v) || (i !in ids && v == RowLeft(system, i, Blocks()))
    }

    lemma WrittenRight(z: Vec, i: nat, v: Byte)
      requires Valid() && Recoverable() && Honest(z) && i < N() && Written(i, v)
      requires Reached()
      ensures v == RowLeft(system, i, z)
    {
      hide Peeler.Feeding, Solves, Determined, Codeword, RowLeft, ValidSystem, Gathering;
      if i !in ids { BlocksAre(z); }
    }

    predicate HasLane(i: nat) {
      lane < if i == N() - 1 then outputFinal else blockBytes
    }

    /** Copy the original blocks that were received. */
    method CopyReceived(output: array<Byte>) returns (copied: seq<bool>)
      requires |ids| == |input| && output.Length == N()
      modifies output
      ensures |copied| == N() && forall i :: 0 <= i < N() ==> (copied[i] <==> i in ids)
      ensures forall i :: 0 <= i < N() ==>
        if i in ids && HasLane(i) then Copied(i, |ids|, output[i]) else output[i] == old(output[i])
    {
      copied := seq(N(), _ => false);
      var row := 0;
      while row < |ids|
        invariant 0 <= row <= |ids| && |copied| == N()
        invariant forall i :: 0 <= i < N() ==> (copied[i] <==> i in ids[..row])
        invariant forall i :: 0 <= i < N() ==>
          if i in ids[..row] && HasLane(i) then Copied(i, row, output[i]) else output[i] == old(output[i])
      {
        var id := ids[row];
        ghost var before := output[..];
        if id < N() {
          if HasLane(id) { output[id] := input[row]; }
          copied := copied[id := true];
        }
        assert ids[..row + 1] == ids[..row] + [id];
        forall i | 0 <= i < N() && i != id && i in ids[..row] && HasLane(i) ensures Copied(i, row + 1, output[i]) {
          assert Copied(i, row, before[i]);
        }
        row := row + 1;
      }
      assert ids[..row] == ids;
    }

    /** Write the message: received blocks are copied, the others generated. */
    method ReconstructOutput(messageBytes: nat, output: array<Byte>) returns (r: Result)
      requires Valid() && Recoverable() && output.Length == N()
      modifies output
      ensures r == InvalidInput <==> messageBytes != (blockBytes * (N() - 1) + outputFinal) % 0x1_0000_0000
      ensures r == InvalidInput || r == Success
      ensures r == InvalidInput ==> output[..] == old(output[..])
      ensures r == Success ==> forall i :: 0 <= i < N() ==>
        if HasLane(i) then Written(i, output[i]) else output[i] == old(output[i])
    {
      hide Peeler.Feeding, Gathering, Solves, Determined, RowLeft, ValidCode, Copied;
      if messageBytes != (blockBytes * (N() - 1) + outputFinal) % 0x1_0000_0000 {
        return InvalidInput;
      }
      var copied := CopyReceived(output);
      ghost var given := output[..];
      var id := 0;
      while id < N()
        invariant 0 <= id <= N()
        invariant forall i :: id <= i < N() ==> output[i] == given[i]
        invariant forall i :: 0 <= i < id ==> if HasLane(i) then Written(i, output[i]) else output[i] == given[i]
      {
        if !copied[id] && HasLane(id) {
          var value := RegenerateRow(id);
          output[id] := value;
        }
        id := id + 1;
      }
      r := Success;
    }

    /** Give back a single block; its id is taken modulo 2^16. */
    method ReconstructBlock(blockId: nat) returns (r: Result, bytes: nat, value: Byte)
      requires Valid() && Recoverable()
      ensures r == InvalidInput <==> blockId % 0x1_0000 >= N()
      ensures r == InvalidInput || r == Success
      ensures bytes == if r == InvalidInput then 0 else if blockId % 0x1_0000 == N() - 1 then outputFinal
        else blockBytes
      ensures r == Success ==> forall z: Vec :: Honest(z) && Reached() ==>
        value == RowLeft(system, blockId % 0x1_0000, z)
    {
      hide Peeler.Feeding, Gathering, Solves, Determined, RowLeft, ValidCode, Codeword;
      var id := blockId % 0x1_0000;
      if id >= N() {
        return InvalidInput, 0, ZERO;
      }
      bytes := if id == N() - 1 then outputFinal else blockBytes;
      if allOriginal {
        assert id in ids;
        var row := 0;
        while ids[row] != id
          invariant 0 <= row < |ids| && id in ids[row..]
          decreases |ids| - row
        {
          row := row + 1;
        }
        return Success, bytes, input[row];
      }
      value := RegenerateRow(id);
      forall z: Vec | Honest(z) && Reached() ensures value == RowLeft(system, id, z) {
        BlocksAre(z);
      }
      r := Success;
    }

    /** Turn into an encoder: solve now if only originals were received, then send rows at their true size. */
    method InitializeEncoderFromDecoder() returns (r: Result)
      requires Valid() && (status == Whole || (status == Decoded && !allOriginal)) && outOfOrder
      modifies this, peeler
      ensures r == if old(status) == Decoded || Determines(system, ids) then Success else BadPeelSeed
      ensures Valid() && (status == if r == Success then Decoded else Spent) && ids == old(ids) && input == old(input)
      ensures r == Success ==> Emits() && inputFinal == outputFinal && outOfOrder && solver != null
      ensures r == Success && Reached() ==> forall z: Vec :: Honest(z) ==> Blocks() == z
    {
      hide Peeler.Feeding, Solver.Valid, Solver.UsedHold, Eliminator.Complete, Eliminator.Stuck, RowLeft, Codeword,
        Determined, ValidSystem, Determines;
      if allOriginal && status == Whole {
        var ok := SolveNow();
        if !ok {
          status := Spent;
          return BadPeelSeed;
        }
      }
      inputFinal := outputFinal;
      r := Success;
      if Reached() {
        forall z: Vec | Honest(z) ensures Blocks() == z { BlocksAre(z); }
      }
    }
  }

  ghost predicate AllReached(codecs: seq<Codec>)
    reads codecs, set c <- codecs | c.solver != null :: c.solver, set c <- codecs | c.solver != null :: c.solver.elim
  {
    forall l :: 0 <= l < |codecs| ==> codecs[l].Reached()
  }

  /** Original block 0 of two fed twice: the decoder holds as many rows as there are blocks, and rejects the
      second, but has never started to solve. */
  method RepeatedOriginal(system: System, blockBytes: nat, lane: nat, finalBytes: nat, memory: Vec, value: Byte)
    returns (first: Result, second: Result, d: Codec)
    requires ValidSystem(system) && system.code.n == 2 && system.dense <= MAX_DENSE_ROWS
    requires lane < blockBytes && 1 <= finalBytes <= blockBytes && |memory| == system.Size() + 1
    ensures first == Result.NeedMore && second == InvalidInput
    ensures d.State() == Intake([0, 0], false, Broken) && |d.ids| == system.code.n && d.solver == null
  {
    hide Peeler.Feeding, Codec.Gathering, Codec.Solves, Codec.Determined, RowLeft, Codeword, ValidSystem, Fed,
      Codec.Valid;
    d := new Codec.Decoder(system, blockBytes, lane, finalBytes, memory);
    RepeatIsFed(system);
    first := d.DecodeFeed(0, value, blockBytes);
    second := d.DecodeFeed(0, value, blockBytes);
  }

  lemma RepeatIsFed(s: System)
    requires ValidSystem(s) && s.code.n == 2
    ensures Fed(s, Intake([], true, Feeding), 0, true) == Intake([0], true, Feeding)
    ensures Fed(s, Intake([0], true, Feeding), 0, true) == Intake([0, 0], false, Broken)
  {
    hide Determines, RowColumns;
    assert [] + [0] == [0] && [0] + [0] == [0, 0] && 1 !in [0, 0];
  }

  /** A row as the encoder sends it, however many bytes it sends, does not mislead the decoder. */
  lemma SentRight(e: Codec, d: Codec, z: Vec, message: Vec, id: nat, bytes: nat, value: Byte)
    requires e.Fixed() && d.Fixed() && e.system == d.system && e.lane == d.lane && e.blockBytes == d.blockBytes
      && d.outputFinal == e.inputFinal
    requires e.Encodes(message) && z == e.Blocks() && bytes == e.CopyBytes(id) && d.SizeOk(id, bytes)
    requires e.lane < bytes ==> value == RowLeft(e.system, id, z)
    ensures d.Stored(id, value) == RowLeft(d.system, id, z)
  {
    hide RowLeft, ValidSystem, Codeword;
  }

  /** An encoder and the decoder of its blocks. */
  ghost predicate Paired(e: Codec, d: Codec, message: Vec)
    reads e, d
  {
    && e != d && e.Fixed() && e.Ready() && e.input == message && !e.outOfOrder && e.system == d.system
    && e.lane == d.lane && e.blockBytes == d.blockBytes && d.outputFinal == e.inputFinal
  }

  /** One row is sent and fed. */
  method SendOne(e: Codec, d: Codec, id: nat, ghost message: Vec) returns (r: Result)
    requires Paired(e, d, message) && d.Valid() && (d.status == Feeding || d.status == Waiting)
    modifies d, d.peeler, d.solver, if d.solver == null then {} else {d.solver.elim}
    ensures d.Valid() && d.inputFinal == old(d.inputFinal)
    ensures d.solver == old(d.solver) || (d.solver != null && fresh(d.solver) && fresh(d.solver.elim))
    ensures (r == Success <==> d.Recoverable()) && d.status != Spent
    ensures e.Encodes(message) && old(d.Honest(e.Blocks())) ==> d.Honest(e.Blocks())
    ensures |old(d.ids)| < d.N() + d.extraCount ==> d.State() == Fed(d.system, old(d.State()), id,
      Expected(id, d.N(), d.blockBytes, d.outputFinal, SentBytes(id, d.N(), d.blockBytes, d.outputFinal)))
  {
    hide Peeler.Feeding, Codec.Gathering, Codec.Solves, Codec.Determined, RowLeft, Codeword, ValidSystem, ValidCode,
      Fed;
    ghost var z := e.Blocks();
    var bytes, value := e.Encode(id, e.blockBytes);
    if e.Encodes(message) && d.SizeOk(id, bytes) { SentRight(e, d, z, message, id, bytes, value); }
    r := d.DecodeFeed(id, value, bytes);
  }

  /** Rows of any ids are sent, until the decoder has enough. What it holds are rows of the code, and as long
      as no spare row has to be used again, whether it has enough follows from the ids. */
  method Exchange(e: Codec, d: Codec, schedule: seq<nat>, ghost message: Vec) returns (done: bool)
    requires Paired(e, d, message) && d.Valid() && d.State() == Intake([], true, Feeding)
    modifies d, d.peeler, d.solver, if d.solver == null then {} else {d.solver.elim}
    ensures d.Valid() && (done ==> d.Recoverable())
    ensures e.Encodes(message) ==> d.Honest(e.Blocks())
    ensures d.inputFinal == old(d.inputFinal)
    ensures |schedule| <= d.N() + d.extraCount ==>
      done == FedAll(d.system, d.blockBytes, d.outputFinal, schedule).Done()
  {
    hide Peeler.Feeding, Codec.Valid, Codec.Encodes, RowLeft, Codeword, ValidSystem, ValidCode, Fed, FedAll;
    d.SizesOk();
    FedNone(d.system, d.blockBytes, d.outputFinal);
    done := false;
    ghost var z := e.Blocks();
    if e.Encodes(message) { EncodedSize(e, message); }
    var k := 0;
    while k < |schedule| && !done && d.status != Broken
      invariant 0 <= k <= |schedule| && d.Valid() && (done <==> d.Recoverable()) && d.status != Spent
      invariant d.solver == old(d.solver) || (d.solver != null && fresh(d.solver) && fresh(d.solver.elim))
      invariant e.Encodes(message) ==> d.Honest(z)
      invariant d.inputFinal == old(d.inputFinal)
      invariant |schedule| <= d.N() + d.extraCount ==>
        |d.ids| <= k && d.State() == FedAll(d.system, d.blockBytes, d.outputFinal, schedule[..k])
      modifies d, d.peeler, d.solver, if d.solver == null then {} else {d.solver.elim}
    {
      FedNext(d.system, d.blockBytes, d.outputFinal, schedule, k);
      FedLonger(d.system, d.State(), schedule[k], Expected(schedule[k], d.N(), d.blockBytes, d.outputFinal,
        SentBytes(schedule[k], d.N(), d.blockBytes, d.outputFinal)));
      var r := SendOne(e, d, schedule[k], message);
      done := r == Success;
      k := k + 1;
    }
    if |schedule| <= d.N() + d.extraCount { FedEnough(d.system, d.blockBytes, d.outputFinal, schedule, k); }
  }

  lemma FedLonger(s: System, st: Intake, id: nat, sized: bool)
    requires ValidSystem(s)
    ensures |Fed(s, st, id, sized).ids| <= |st.ids| + 1 && Fed(s, st, id, false) == st
  {
    hide HasRoom, Determines, ValidSystem;
  }

  lemma FedNone(s: System, blockBytes: nat, finalBytes: nat)
    requires ValidSystem(s)
    ensures FedAll(s, blockBytes, finalBytes, []) == Intake([], true, Feeding)
  {}

  lemma FedNext(s: System, blockBytes: nat, finalBytes: nat, schedule: seq<nat>, k: nat)
    requires ValidSystem(s) && k < |schedule|
    ensures var st, n, id := FedAll(s, blockBytes, finalBytes, schedule[..k]), s.code.n, schedule[k];
      FedAll(s, blockBytes, finalBytes, schedule[..k + 1]) == if st.Done() || st.status == Broken then st
      else Fed(s, st, id, Expected(id, n, blockBytes, finalBytes, SentBytes(id, n, blockBytes, finalBytes)))
  {
    hide Fed;
    assert schedule[..k + 1][..k] == schedule[..k];
  }

  /** Nothing is fed any more once there are enough. */
  lemma {:induction false} FedEnough(s: System, blockBytes: nat, finalBytes: nat, schedule: seq<nat>, k: nat)
    requires ValidSystem(s) && k <= |schedule|
    requires var st := FedAll(s, blockBytes, finalBytes, schedule[..k]);
      st.Done() || st.status == Broken || k == |schedule|
    ensures FedAll(s, blockBytes, finalBytes, schedule) == FedAll(s, blockBytes, finalBytes, schedule[..k])
    decreases |schedule| - k
  {
    hide Fed, FedAll;
    if k < |schedule| {
      FedNext(s, blockBytes, finalBytes, schedule, k);
      FedEnough(s, blockBytes, finalBytes, schedule, k + 1);
    } else {
      assert schedule[..k] == schedule;
    }
  }

  /** What a decoder that is done writes is what the encoder encoded. */
  method Deliver(d: Codec, ghost e: Codec, ghost message: Vec, output: array<Byte>)
    requires d.Valid() && d.Recoverable() && output.Length == d.N() && ValidSystem(e.system) && d.system == e.system
      && d.lane == e.lane
    requires d.blockBytes == e.blockBytes && d.outputFinal == e.inputFinal
    requires e.Encodes(message) ==> d.Honest(e.Blocks())
    requires d.blockBytes * (d.N() - 1) + d.outputFinal < 0x1_0000_0000
    modifies output
    ensures e.Encodes(message) && d.Reached() ==>
      forall i :: 0 <= i < d.N() ==> output[i] == if d.HasLane(i) then message[i] else old(output[i])
  {
    hide Peeler.Feeding, Codec.Gathering, Codec.Solves, Codec.Determined, RowLeft, Codeword, ValidSystem, ValidCode,
      Codec.Encodes, Codec.Honest,
      Codec.Written, Codec.Valid;
    assert 0 <= d.blockBytes * (d.N() - 1) + d.outputFinal by { d.SizesOk(); }
    var r := d.ReconstructOutput(d.blockBytes * (d.N() - 1) + d.outputFinal, output);
    if e.Encodes(message) && d.Reached() {
      d.SizesOk();
      EncodedSize(e, message);
      forall i | 0 <= i < d.N() && d.HasLane(i) ensures output[i] == message[i] {
        d.WrittenRight(e.Blocks(), i, output[i]);
        EncodedRow(e, message, i);
      }
    }
  }

  lemma EncodedSize(e: Codec, message: Vec)
    requires ValidSystem(e.system) && e.Encodes(message)
    ensures |message| == e.N() && |e.recovery| == e.system.Size() + 1 && Codeword(e.system, e.Blocks())
  {}

  /** Encode a message, send rows of it in any order, with losses and repetitions, and decode: when the
      decoder says that it is done, what it writes is the message, unless back substitution passed over an
      entry in one of the two. In codes of up to 32235 blocks it never does. */
  method Transfer(system: System, blockBytes: nat, lane: nat, finalBytes: nat, message: Vec, memory: Vec, memory': Vec,
    schedule: seq<nat>, output: array<Byte>) returns (done: bool, e: Codec, d: Codec)
    requires ValidSystem(system) && system.code.n <= MAX_N && system.dense <= MAX_DENSE_ROWS
    requires lane < blockBytes && 1 <= finalBytes <= blockBytes && |memory| == |memory'| == system.Size() + 1
    requires |message| == output.Length == system.code.n && blockBytes * (system.code.n - 1)
      + finalBytes < 0x1_0000_0000
    modifies output
    ensures fresh(e) && fresh(d) && (done ==> e.status == Decoded && d.Recoverable())
    ensures done && e.Reached() && d.Reached() ==> forall i :: 0 <= i < system.code.n ==>
      output[i] == if lane < (if i == system.code.n - 1 then finalBytes else blockBytes) then message[i]
        else old(output[i])
    ensures done && system.code.n + system.dense + MAX_EXTRA_ROWS <= ROW_LIMIT ==> e.Reached() && d.Reached()
    ensures done ==> Encodable(system)
    ensures |schedule| <= system.code.n + MAX_EXTRA_ROWS ==>
      (done <==> Encodable(system) && FedAll(system, blockBytes, finalBytes, schedule).Done())
  {
    hide Encodable, FedAll, Peeler.Feeding, Codec.Gathering, Codec.Solves, Codec.Determined, RowLeft, Codeword,
      ValidSystem, ValidCode, Codec.Encodes, Codec.Honest, Codec.Valid, Solver.Valid, Codec.Reached, Codec.Ready,
      Codec.Generated, Eliminator.Complete;
    e := new Codec.Encoder(system, blockBytes, lane, finalBytes, memory);
    d := new Codec.Decoder(system, blockBytes, lane, finalBytes, memory');
    var r := e.EncodeFeed(message);
    if r != Success {
      return false, e, d;
    }
    done := Exchange(e, d, schedule, message);
    if !done {
      return;
    }
    if system.code.n + system.dense + MAX_EXTRA_ROWS <= ROW_LIMIT { d.ReachedWhenDecoded(); }
    Deliver(d, e, message, output);
  }

  lemma EncodedRow(e: Codec, message: Vec, i: nat)
    requires ValidSystem(e.system) && e.Encodes(message) && i < e.N()
      && e.lane < (if i == e.N() - 1 then e.inputFinal else e.blockBytes)
    ensures RowLeft(e.system, i, e.Blocks()) == message[i]
  {
    hide RowLeft, ValidSystem, Codeword;
  }

  lemma FirstTwo(list: seq<nat>, z: Vec)
    requires |list| > 1 && Within(list, |z|)
    ensures SumOf(list[..2], z) == Add(z[list[0]], z[list[1]])
  {
    hide Add;
    SumNext(list, 0, z);
    SumNext(list, 1, z);
    assert SumOf(list[..0], z) == ZERO;
    AddZero(z[list[0]]);
  }

  lemma OnlyOne(list: seq<nat>, z: Vec)
    requires |list| == 1 && Within(list, |z|)
    ensures SumOf(list, z) == z[list[0]]
  {
    hide Add;
    SumNext(list, 0, z);
    assert SumOf(list[..0], z) == ZERO && list[..1] == list;
    AddZero(z[list[0]]);
  }

  lemma Regroup(s: Byte, a: Byte, b: Byte, c: Byte)
    ensures Add(Add(s, a), Add(b, c)) == Add(s, Add(Add(a, b), c))
  {}
}

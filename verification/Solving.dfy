/** The matrix solver as a whole: peel, compress, eliminate, resume with one more row when a pivot
    is missing, and generate the recovery blocks when none is. */
module Solving {
  import opened Finite
  import opened GF256
  import opened Linear
  import opened Progress
  import opened Elimination
  import opened Triangulation
  import opened Rows
  import opened PeelState
  import opened Peeling
  import opened Sums
  import opened Diagonal
  import opened Compression
  import opened Dense
  import opened Equations
  import opened Assembly
  import opened Meaning
  import opened Triangular
  import opened Spans
  import opened Evaluation
  import opened Preparation
  import opened Skipping
  import opened Substitution
  import opened Restoration

  // ---------- From compression to elimination ----------

  /** A finished compression of a code with this system. */
  ghost predicate Ready(c: Compressor, s: System)
    reads c
  {
    && c.Fixed() && c.Working(|c.plan.peels|) && c.geColMap == GeMap(c.plan) && UsesFinal(c.plan, c.uses)
    && ValidSystem(s) && s.code == c.code && s.dense <= MAX_DENSE_ROWS
  }

  lemma ReadyDone(c: Compressor, s: System)
    requires Ready(c, s)
    ensures Fit(s, c.plan, c.Inputs()) && Done(c.plan, c.compress, c.recovery, c.Inputs())
      && |c.plan.solves| == c.plan.n == s.code.n
    ensures ColumnsKnown(c.columnMarks, c.uses, c.compress, c.code.n, Width(c.plan))
    ensures c.deferCount == |c.plan.deferColumns| && Linked(c.nexts, c.defers, c.deferHead)
      && |c.nexts| == c.code.n < LIST_TERM
    ensures Width(c.plan) == c.deferCount + s.Mix() && s.HeavyCount() <= s.Mix()
    ensures |c.plan.columnsOf| == |c.plan.mixOf| == c.code.n && c.plan.columnMarks == c.columnMarks
    ensures UsesFinal(c.plan, c.uses) && c.plan.n <= |c.recovery|
  {
    hide RefsOk, Linked, Planned, MeansAll, GatheredAll, UsesFinal, ValidCode;
    PlanSmall(c.plan);
    assert forall q :: 0 <= q < |c.compress| ==> |c.compress[q]| == Width(c.plan);
    UsesKnown(c.plan, c.uses, c.compress, c.recovery);
  }

  /** How many rows are on the deferred list. */
  ghost predicate Balanced(c: Compressor) {
    |c.defers| == c.deferCount
  }

  /** The GE matrix of a finished compression, about to be searched for pivots; each of its rows
      means one equation of the code. */
  method Assembled(c: Compressor, s: System, extraCount: nat) returns (e: Eliminator, rowMap: seq<nat>)
    requires Ready(c, s) && Balanced(c)
    ensures fresh(e) && e.Searching() && e.extraUsed == 0
    ensures e.columns == Width(c.plan) && e.lightRows == c.deferCount + s.dense && e.extraRows == extraCount
    ensures e.columns >= s.HeavyCount() && e.firstHeavyColumn == e.columns - s.HeavyCount()
    ensures |rowMap| == e.columns + extraCount && |e.orig| == e.lightRows + extraCount + HEAVY_ROWS
    ensures forall r :: s.dense <= r < e.lightRows ==> rowMap[r] == c.defers[r - s.dense]
    ensures forall r :: 0 <= r < e.lightRows || e.lightRows + extraCount <= r < |e.orig| ==>
      FirstRow(c, s, e.orig[r], extraCount, r)
  {
    hide RefsOk, Linked, Planned, UsesFinal, ValidCode, Ready, Heavy, ColumnsKnown, FirstRow, BitsRow, HeavyRow;
    ReadyDone(c, s);
    var a := new Assembler(s, c.deferCount, extraCount, c.nexts, c.deferHead, c.columnMarks, c.uses, c.compress,
      c.defers);
    assert a.Fixed() && a.Linked0() by { AssemblerReady(c, s, a); }
    a.Assemble();
    e := new Eliminator(a.width, c.deferCount + s.dense, extraCount, a.width - s.HeavyCount(), a.ge, a.heavy);
    assert e.M().Shaped();
    ghost var m := e.M();
    e.SetupTriangle();
    rowMap := a.geRowMap;
    forall r | 0 <= r < e.lightRows || e.lightRows + extraCount <= r < |e.orig|
      ensures FirstRow(c, s, e.orig[r], extraCount, r) {
      FirstRowMeans(c, s, a, m, r);
    }
  }

  lemma AssemblerReady(c: Compressor, s: System, a: Assembler)
    requires Ready(c, s) && Balanced(c) && a.system == s && a.n == s.code.n && a.denseCount == s.dense
      && a.stream == s.stream
    requires a.deferCount == c.deferCount && a.width == c.deferCount + s.Mix() && a.nexts == c.nexts
      && a.deferHead == c.deferHead
    requires a.columnMarks == c.columnMarks && a.uses == c.uses && a.compress == c.compress && a.defers == c.defers
    ensures a.Fixed() && a.Linked0()
  {
    ReadyDone(c, s);
  }

  /** What GE row r means before elimination; the extra rows have no meaning yet. */
  ghost predicate FirstRow(c: Compressor, s: System, o: Vec, extraCount: nat, r: nat)
    requires Ready(c, s) && Balanced(c)
    reads c
  {
    ReadyDone(c, s);
    var light := c.deferCount + s.dense;
    if r < s.dense then Meant(s, c.plan, c.Inputs(), o, DenseKind(r), AllTemps(c.plan, c.recovery))
    else if r < light then
      c.defers[r - s.dense] < |c.ids|
      && Meant(s, c.plan, c.Inputs(), o, SparseKind(c.ids[c.defers[r - s.dense]]), AllTemps(c.plan, c.recovery))
    else light + extraCount <= r && Meant(s, c.plan, c.Inputs(), o, HeavyKind(r - light - extraCount),
      AllTemps(c.plan, c.recovery))
  }

  /** The assembler works on what the compressor left. */
  ghost predicate Joined(c: Compressor, s: System, a: Assembler)
    reads c, a
  {
    && Ready(c, s) && Balanced(c) && a.Assembled() && a.system == s && a.n == s.code.n && a.denseCount == s.dense
      && a.stream == s.stream
    && a.deferCount == c.deferCount && a.nexts == c.nexts && a.deferHead == c.deferHead
    && a.columnMarks == c.columnMarks && a.uses == c.uses && a.compress == c.compress && a.defers == c.defers
  }

  lemma FirstDense(c: Compressor, s: System, a: Assembler, r: nat)
    requires Joined(c, s, a) && r < s.dense
    ensures r < |a.ge| && FirstRow(c, s, BitsRow(a.ge[r]), a.extraCount, r)
  {
    hide RefsOk, Linked, Planned, UsesFinal, ValidCode, Meant, XorBits, Inset, ColumnsKnown, BitsRow, Done, AllTemps,
      Ready;
    ReadyDone(c, s);
    DenseMeans(s, c.plan, c.uses, c.compress, c.recovery, c.Inputs(), a, r);
  }

  lemma FirstDeferred(c: Compressor, s: System, a: Assembler, r: nat)
    requires Joined(c, s, a) && s.dense <= r < c.deferCount + s.dense
    ensures r < |a.ge| && FirstRow(c, s, BitsRow(a.ge[r]), a.extraCount, r)
  {
    hide RefsOk, Linked, Planned, UsesFinal, ValidCode, Meant, ColumnsKnown, BitsRow, Done, AllTemps, Ready;
    ReadyDone(c, s);
    var q := c.defers[r - s.dense];
    assert a.ge[r] == a.DeferredRow(r);
    DeferredFacts(c, s, r - s.dense);
    DeferredMeans(s, c.plan, c.compress, c.recovery, c.Inputs(), q, c.ids[q]);
  }

  lemma FirstHeavy(c: Compressor, s: System, a: Assembler, h: nat)
    requires Joined(c, s, a) && h < HEAVY_ROWS
    ensures a.extraCount + h < |a.heavy| && a.width >= s.HeavyCount()
    ensures FirstRow(c, s, HeavyRow(a.heavy[a.extraCount + h], a.width - s.HeavyCount()), a.extraCount,
      c.deferCount + s.dense + a.extraCount + h)
  {
    hide RefsOk, Linked, Planned, UsesFinal, ValidCode, Heavy, Meant, ColumnsKnown, HeavyRow, Done, AllTemps, Ready;
    ReadyDone(c, s);
    assert a.heavy[a.extraCount + h] == Heavy(s, h);
    HeavyMeans(s, c.plan, c.Inputs(), AllTemps(c.plan, c.recovery), h);
  }

  lemma FirstRowMeans(c: Compressor, s: System, a: Assembler, m: Matrix, r: nat)
    requires Joined(c, s, a) && a.width >= s.HeavyCount()
    requires m == Matrix(a.width, c.deferCount + s.dense, a.extraCount, a.width - s.HeavyCount(), a.ge, a.heavy, false)
      && m.Shaped()
    requires r < c.deferCount + s.dense || c.deferCount + s.dense + a.extraCount <= r < m.RowCount()
    ensures FirstRow(c, s, m.Row(r), a.extraCount, r)
  {
    hide Joined, FirstRow, BitsRow, HeavyRow;
    if r < s.dense {
      FirstDense(c, s, a, r);
    } else if r < c.deferCount + s.dense {
      FirstDeferred(c, s, a, r);
    } else {
      FirstHeavy(c, s, a, r - (c.deferCount + s.dense + a.extraCount));
    }
  }

  lemma DeferredFacts(c: Compressor, s: System, i: nat)
    requires Ready(c, s) && i < |c.defers|
    ensures var q := c.defers[i];
      && q < |c.ids| == |c.plan.solves| == |c.plan.columnsOf| == |c.plan.mixOf| && !Peels(c.plan, q)
      && c.plan.columnsOf[q] == RowColumns(s.code, c.ids[q]) && c.plan.mixOf[q] == MixColumns(s.code, c.ids[q])
  {
    hide RefsOk, Planned, UsesFinal, Diagonalized, RowColumns, MixColumns, ValidCode;
    PlanSmall(c.plan);
    var q := c.defers[i];
    assert q in c.defers;
    assert c.RowFixed(q);
  }

  // ---------- A row received late ----------

  /** What flipping the three mixing columns of a row gives. */
  ghost function MixRow(s: System, width: nat, deferCount: nat, id: nat): (bits: Bits)
    requires ValidSystem(s) && width == deferCount + s.Mix()
    ensures |bits| == width
  {
    var mix := RowMix(s.code, id);
    Flip(Flip(Flip(NoBits(width), mix[0] + deferCount), mix[1] + deferCount), mix[2] + deferCount)
  }

  lemma MixRowDot(s: System, p: Plan, id: nat, z: Vec)
    requires ValidSystem(s) && Planned(p) && p.n == s.code.n && p.mixCount == s.Mix() && Assigns(p, z)
    ensures BitDot(MixRow(s, Width(p), |p.deferColumns|, id), Ge(p, z)) == SumOf(MixColumns(s.code, id), z)
  {
    hide ValidCode, RowMix, Planned, BitDot, SumOf, Add;
    var mix, m, y, none, d := RowMix(s.code, id), MixColumns(s.code, id), Ge(p, z), NoBits(Width(p)), |p.deferColumns|;
    BitDotNone(Width(p), y);
    BitDotFlip(none, mix[0] + d, y);
    BitDotFlip(Flip(none, mix[0] + d), mix[1] + d, y);
    BitDotFlip(Flip(Flip(none, mix[0] + d), mix[1] + d), mix[2] + d, y);
    assert forall k :: 0 <= k < 3 ==> y[mix[k] + d] == z[m[k]];
    SumThree(m, z);
    AddZero(z[m[0]]);
    AddComm(ZERO, z[m[0]]);
  }

  // ---------- The solver ----------

  /** How resuming with one more row ends. */
  datatype Resumed = Solved | NeedMore | ExtraInsufficient

  ghost predicate Prepared(c: Compressor, s: System, extraCount: nat, e: Eliminator, rowMap: seq<nat>)
    reads c, e
  {
    && Ready(c, s) && Balanced(c) && e.Ready() && e.extraUsed == 0
    && e.columns == Width(c.plan) && e.lightRows == c.deferCount + s.dense && e.extraRows == extraCount
    && e.columns >= s.HeavyCount() && e.firstHeavyColumn == e.columns - s.HeavyCount()
    && |rowMap| == e.columns + extraCount && |e.orig| == e.lightRows + extraCount + HEAVY_ROWS
    && (forall r :: s.dense <= r < e.lightRows ==> rowMap[r] == c.defers[r - s.dense])
    && (forall r :: 0 <= r < e.lightRows || e.lightRows + extraCount <= r < |e.orig| ==>
      FirstRow(c, s, e.orig[r], extraCount, r))
  }

  class Solver {
    const system: System
    const extraCount: nat
    const pad: bool
    const deferCount: nat
    const nexts: seq<nat>
    const peelHead: nat
    const columnMarks: seq<Mark>
    const uses: seq<Use>
    const compress: seq<Bits>
    const solves: seq<nat>
    const geColMap: seq<nat>
    const elim: Eliminator

    ghost const plan: Plan
    ghost const defers: seq<nat>
    ghost const peelInput: Vec
    ghost const temp0: Vec

    var ids: seq<nat>
    var input: Vec
    var geRowMap: seq<nat>
    var recovery: Vec

    /** The solver of a finished compression, with its GE matrix searched for pivots as far as possible. */
    constructor (c: Compressor, s: System, extraCount: nat, e: Eliminator, rowMap: seq<nat>)
      requires Prepared(c, s, extraCount, e, rowMap)
      ensures Valid() && elim == e && system == s && this.extraCount == extraCount && pad == c.pad
      ensures ids == c.ids && input == c.input && recovery == c.recovery && temp0 == c.recovery && plan == c.plan
        && defers == c.defers
    {
      system, this.extraCount, pad, deferCount := s, extraCount, c.pad, c.deferCount;
      nexts, peelHead, columnMarks, uses, compress := c.nexts, c.peelHead, c.columnMarks, c.uses, c.compress;
      var marks := c.marks;
      solves := seq(|marks|, q requires 0 <= q < |marks| => if marks[q].Result? then marks[q].column else LIST_TERM);
      geColMap := c.geColMap;
      elim := e;
      plan, defers, peelInput, temp0 := c.plan, c.defers, c.Inputs(), c.recovery;
      ids, input, geRowMap, recovery := c.ids, c.input, rowMap, c.recovery;
      new;
      Established(c);
    }

    function N(): nat { system.code.n }

    function LightRows(): nat { deferCount + system.dense }

    function Columns(): nat { deferCount + system.Mix() }

    /** What compression has left, for good. */
    ghost predicate Compressed() {
      && Fit(system, plan, peelInput) && Done(plan, compress, temp0, peelInput) && UsesFinal(plan, uses)
      && ColumnsKnown(columnMarks, uses, compress, N(), Columns())
      && |plan.solves| == N() == |peelInput| && plan.columnMarks == columnMarks && solves == plan.solves
      && deferCount == |plan.deferColumns| && geColMap == GeMap(plan) && Width(plan) == Columns()
      && Linked(nexts, plan.peels, peelHead) && |nexts| == N() < LIST_TERM
      && system.dense <= MAX_DENSE_ROWS && |temp0| == system.Size() + 1
      && elim.columns == Columns() && elim.lightRows == LightRows() && elim.extraRows == extraCount
      && system.HeavyCount() <= Columns() && elim.firstHeavyColumn == Columns() - system.HeavyCount()
      && |defers| == deferCount && (forall i :: 0 <= i < deferCount ==> defers[i] < N())
      && (forall q :: 0 <= q < N() ==> (q in defers <==> !Peels(plan, q)))
    }

    ghost function Temps(): (t: Vec)
      requires Compressed()
      ensures |t| == N()
    {
      AllTemps(plan, temp0)
    }

    function InputAt(q: nat): Byte
      requires q < |input|
      reads `input
    {
      if pad && q == N() - 1 then ZERO else input[q]
    }

    /** The first n rows are those that were peeled. */
    ghost predicate RowFixed(q: nat)
      requires ValidSystem(system) && q < |ids| && q < |input| && q < |peelInput| && q < |plan.columnsOf|
        && q < |plan.mixOf|
      reads `ids, `input
    {
      && plan.columnsOf[q] == RowColumns(system.code, ids[q]) && plan.mixOf[q] == MixColumns(system.code, ids[q])
      && InputAt(q) == peelInput[q]
    }

    /** Which GE rows stand for an equation now. */
    ghost predicate InUse(r: nat)
      reads elim`extraUsed
    {
      r < LightRows() + elim.extraUsed || LightRows() + extraCount <= r < LightRows() + extraCount + HEAVY_ROWS
    }

    ghost predicate Mapped()
      reads `ids, `input, `geRowMap, elim`extraUsed
    {
      && |ids| == |input| == N() + elim.extraUsed && elim.extraUsed <= extraCount
      && |geRowMap| == Columns() + extraCount
      && |defers| == deferCount
      && (forall r :: system.dense <= r < LightRows() ==> geRowMap[r] == defers[r - system.dense] < N())
      && (forall r :: LightRows() <= r < LightRows() + elim.extraUsed ==> geRowMap[r] == N() + (r - LightRows()))
    }

    /** The row slot a received GE row stands for. */
    lemma RowOf(r: nat)
      requires Mapped() && system.dense <= r < LightRows() + elim.extraUsed
      ensures r < |geRowMap| && geRowMap[r] < |ids|
      ensures r < LightRows() ==> geRowMap[r] == defers[r - system.dense]
      ensures LightRows() <= r ==> geRowMap[r] == N() + (r - LightRows())
    {}

    /** The equation GE row r stands for. */
    ghost function KindOf(r: nat): (k: Kind)
      requires Mapped() && InUse(r)
      reads `ids, `input, `geRowMap, elim`extraUsed
      ensures KindOk(system, k)
    {
      if r < system.dense then DenseKind(r)
      else if r < LightRows() + elim.extraUsed then (RowOf(r); SparseKind(ids[geRowMap[r]]))
      else HeavyKind(r - LightRows() - extraCount)
    }

    /** And its right side. */
    ghost function RightOf(r: nat): Byte
      requires Mapped() && InUse(r)
      reads `ids, `input, `geRowMap, elim`extraUsed
    {
      if system.dense <= r < LightRows() + elim.extraUsed then (RowOf(r); InputAt(geRowMap[r])) else ZERO
    }

    ghost predicate RowMeant(r: nat)
      requires Compressed() && Mapped() && InUse(r)
      reads `ids, `input, `geRowMap, elim`extraUsed, elim`orig
    {
      r < |elim.orig| && Meant(system, plan, peelInput, elim.orig[r], KindOf(r), Temps())
    }

    ghost predicate Valid()
      reads this, elim
    {
      && Compressed() && Mapped() && elim.Ready()
      && |plan.columnsOf| == |plan.mixOf| == N()
      && (forall q :: 0 <= q < N() ==> RowFixed(q))
      && (forall r :: 0 <= r < LightRows() + extraCount + HEAVY_ROWS && InUse(r) ==> RowMeant(r))
      && |recovery| == system.Size() + 1
    }

    ghost predicate From(c: Compressor)
      reads this, c, elim
    {
      && Prepared(c, system, extraCount, elim, geRowMap) && pad == c.pad && deferCount == c.deferCount
      && nexts == c.nexts && peelHead == c.peelHead && columnMarks == c.columnMarks && uses == c.uses
        && compress == c.compress
      && geColMap == c.geColMap && plan == c.plan && defers == c.defers && peelInput == c.Inputs()
        && temp0 == c.recovery
      && ids == c.ids && input == c.input && recovery == c.recovery && solves == plan.solves
    }

    lemma Established(c: Compressor)
      requires Prepared(c, system, extraCount, elim, geRowMap) && pad == c.pad && deferCount == c.deferCount
      requires nexts == c.nexts && peelHead == c.peelHead && columnMarks == c.columnMarks && uses == c.uses
        && compress == c.compress
      requires geColMap == c.geColMap && plan == c.plan && defers == c.defers && peelInput == c.Inputs()
        && temp0 == c.recovery
      requires ids == c.ids && input == c.input && recovery == c.recovery
      requires |solves| == |c.marks| && forall q :: 0 <= q < |solves| ==>
        solves[q] == if c.marks[q].Result? then c.marks[q].column else LIST_TERM
      ensures Valid()
    {
      hide Ready, FirstRow, Compressed, RowMeant, RowFixed, InUse;
      assert solves == plan.solves by { SolvesFrom(c); }
      CompressedFrom(c);
      RowsFrom(c);
      forall r | 0 <= r < LightRows() + extraCount + HEAVY_ROWS && InUse(r) ensures RowMeant(r) { MeantFrom(c, r); }
    }

    lemma SolvesFrom(c: Compressor)
      requires Ready(c, system) && plan == c.plan
      requires |solves| == |c.marks| && forall q :: 0 <= q < |solves| ==>
        solves[q] == if c.marks[q].Result? then c.marks[q].column else LIST_TERM
      ensures solves == plan.solves
    {
      hide Planned, MeansAll, GatheredAll, RefsOk, Linked, UsesFinal, ValidCode;
    }

    lemma CompressedFrom(c: Compressor)
      requires From(c)
      ensures Compressed() && |plan.columnsOf| == |plan.mixOf| == N() && |recovery| == system.Size() + 1
    {
      hide FirstRow, Linked, UsesFinal, Done, Meant, ValidCode, RefsOk, Planned, ColumnsKnown;
      ReadyDone(c, system);
      MoreFacts(c);
    }

    lemma MoreFacts(c: Compressor)
      requires Ready(c, system)
      ensures |c.recovery| == system.Size() + 1 && |c.ids| == |c.input| == system.code.n
        && Linked(c.nexts, c.plan.peels, c.peelHead)
      ensures forall i :: 0 <= i < |c.defers| ==> c.defers[i] < |c.nexts|
      ensures forall q :: 0 <= q < system.code.n && q < |c.plan.solves| ==> (q in c.defers <==> !Peels(c.plan, q))
      ensures forall q :: 0 <= q < system.code.n ==>
        q < |c.plan.columnsOf| && q < |c.plan.mixOf|
        && c.plan.columnsOf[q] == RowColumns(system.code, c.ids[q])
          && c.plan.mixOf[q] == MixColumns(system.code, c.ids[q])
    {
      hide UsesFinal, ValidCode, RefsOk, Planned, Diagonalized, RowColumns, MixColumns;
      PlanSmall(c.plan);
      assert Linked(c.nexts, c.defers, c.deferHead);
      forall q | 0 <= q < system.code.n && q < |c.plan.solves| ensures q in c.defers <==> !Peels(c.plan, q) {
        assert c.RowFixed(q);
      }
      forall q | 0 <= q < system.code.n ensures c.plan.columnsOf[q] == RowColumns(system.code, c.ids[q])
        && c.plan.mixOf[q] == MixColumns(system.code, c.ids[q]) {
        assert c.RowFixed(q);
      }
    }

    lemma RowsFrom(c: Compressor)
      requires From(c) && Compressed() && |plan.columnsOf| == |plan.mixOf| == N()
      ensures Mapped() && forall q :: 0 <= q < N() ==> RowFixed(q)
    {
      hide FirstRow, Linked, UsesFinal, Done, Meant, ValidCode, RefsOk, Planned, ColumnsKnown, Ready, RowColumns,
        MixColumns;
      MoreFacts(c);
      ReadyDone(c, system);
      forall q | 0 <= q < N() ensures RowFixed(q) {
        assert c.Inputs()[q] == c.InputAt(q);
      }
    }

    lemma MeantFrom(c: Compressor, r: nat)
      requires From(c) && Compressed() && Mapped() && InUse(r)
      ensures RowMeant(r)
    {
      hide Linked, UsesFinal, Done, Meant, ValidCode, RefsOk, Planned, ColumnsKnown, Ready, Compressed, AllTemps;
      assert FirstRow(c, system, elim.orig[r], extraCount, r);
      if system.dense <= r < LightRows() { RowOf(r); }
    }

    // ---------- Generating the recovery blocks ----------

    /** z satisfies every peeled row and every equation whose GE row was chosen as a pivot. */
    ghost predicate UsedHold(z: Vec)
      requires Compressed() && Mapped() && elim.Ready() && elim.Complete()
      reads `ids, `input, `geRowMap, elim
    {
      && PeelSolution(plan, peelInput, z) && Columns() <= |elim.pivots|
      && (forall i :: 0 <= i < Columns() ==> UsedHolds(i, z))
    }

    ghost predicate UsedHolds(i: nat, z: Vec)
      requires Compressed() && Mapped() && elim.Ready() && i < |elim.pivots| && |z| == system.Size()
      reads `ids, `input, `geRowMap, elim
    {
      PivotInUse(i);
      Left(system, KindOf(elim.pivots[i]), z) == RightOf(elim.pivots[i])
    }

    lemma PivotInUse(i: nat)
      requires Compressed() && elim.Ready() && i < |elim.pivots|
      ensures InUse(elim.pivots[i]) && elim.pivots[i] < Columns() + extraCount
    {
      hide Fit, Done, UsesFinal, ColumnsKnown, Linked, HasAll;
    }

    /** The right side of GE row r in the reduced system. */
    ghost function Target(r: nat): Byte
      requires Compressed() && Mapped() && InUse(r)
      reads `ids, `input, `geRowMap, elim`extraUsed
    {
      Add(RightOf(r), TempOf(system, KindOf(r), Temps()))
    }

    ghost predicate Fresh()
      requires Compressed()
      reads `recovery
    {
      |recovery| == system.Size() + 1 && PeeledOnly(columnMarks, recovery) == Temps()
    }

    lemma StartsFresh()
      requires Compressed() && recovery == temp0
      ensures Fresh()
    {
      hide Done, UsesFinal, ColumnsKnown, Linked, ValidCode;
      CodeKnown();
      AllTempsArePeeled(plan, temp0);
    }

    lemma GeCells()
      requires Compressed()
      ensures NoRepeat(geColMap) && |geColMap| == Columns() && Within(geColMap, system.Size())
      ensures forall k :: 0 <= k < Columns() && geColMap[k] < N() ==> !columnMarks[geColMap[k]].Peel?
      ensures Columns() == LightRows() + HEAVY_ROWS && N() == |columnMarks| && elim.lightRows == LightRows()
      ensures N() + system.Mix() <= LIST_TERM && ValidSystem(system) && system.dense <= MAX_DENSE_ROWS
    {
      hide Done, UsesFinal, ColumnsKnown, Linked, ValidCode, Planned;
      GeMapFacts(plan);
      PlanSmall(plan);
      assert plan.n <= MAX_N by { PlanLimit(plan); }
    }

    lemma PlanLimit(p: Plan)
      requires Planned(p)
      ensures p.n <= MAX_N
    {}

    /** No more columns are deferred than there are. */
    lemma DeferLimit()
      requires Valid()
      ensures deferCount <= N()
    {
      hide Done, UsesFinal, ColumnsKnown, Linked, ValidCode, RowMeant, RowFixed, Sound, HasAll, NoneIn;
      forall k | 0 <= k < |plan.deferColumns| ensures plan.deferColumns[k] < plan.n { DeferredBelow(plan, k); }
      ElementsSize(plan.deferColumns);
      RangeFull(plan.n, Elements(plan.deferColumns));
    }

    /** The preparer's view of the state. */
    ghost predicate Prepares(prep: Preparer)
      reads this, elim, prep
    {
      && prep.system == system && prep.n == N() && prep.denseCount == system.dense && prep.lightRows == LightRows()
      && prep.extraCount == extraCount && prep.columns == Columns() && prep.columnMarks == columnMarks
      && prep.geColMap == geColMap && prep.pivots == elim.pivots && prep.ids == ids && prep.input == input
        && prep.pad == pad
    }

    lemma PreparerReady(prep: Preparer)
      requires Valid() && elim.Complete() && Prepares(prep) && prep.recovery == recovery && prep.geRowMap == geRowMap
      ensures prep.Fixed() && prep.Sized() && prep.RowsKnown(geRowMap) && HasAll(prep.pivots, prep.lightRows)
    {
      hide Compressed, Sound, NoneIn, RowMeant, RowFixed, HasAll;
      GeCells();
      PivotBounds();
      HasAllLess(elim.pivots, LightRows() + elim.extraUsed, LightRows());
      forall i | 0 <= i < Columns() && prep.Received(elim.pivots[i]) ensures geRowMap[elim.pivots[i]] < |ids| {
        PivotInUse(i);
        RowOf(elim.pivots[i]);
      }
    }

    lemma PivotBounds()
      requires Compressed() && elim.Ready() && elim.Complete()
      ensures Columns() <= |elim.pivots| && Distinct(elim.pivots)
      ensures forall i :: 0 <= i < |elim.pivots| ==> elim.pivots[i] < Columns() + extraCount
    {
      hide Fit, Done, UsesFinal, ColumnsKnown, Linked, HasAll, NoneIn, Sound;
      SoundBounds(elim.M(), elim.pivots, elim.orig, elim.upper);
    }

    /** What a chosen row starts from, and what it becomes. */
    lemma StartIsTarget(prep: Preparer, i: nat)
      requires Compressed() && Mapped() && elim.Ready() && elim.Complete() && Prepares(prep) && prep.Fixed()
        && prep.RowsKnown(geRowMap)
      requires i < Columns() && i < |elim.pivots|
      ensures var r := elim.pivots[i];
        InUse(r) && prep.Start(geRowMap, Temps(), i) ==
          if r < system.dense then ZERO else Target(r)
      ensures elim.pivots[i] < system.dense ==>
        Target(elim.pivots[i]) == DenseSum(system.stream, system.dense, WindowCount(N(), system.dense), elim.pivots[i],
          Temps())
    {
      hide Fit, Done, UsesFinal, ColumnsKnown, Linked, HasAll, NoneIn, Sound, Add, SumOf, RowColumns, AllTemps,
        DenseSum;
      PivotInUse(i);
      var r := elim.pivots[i];
      if system.dense <= r < LightRows() + elim.extraUsed {
        RowOf(r);
      } else {
        AddZero(TempOf(system, KindOf(r), Temps()));
      }
    }

    /** The evaluator's view of the state. */
    ghost predicate Evaluates(ev: Evaluator, prep: Preparer)
      reads ev, prep
    {
      && ev.system == system && ev.n == N() && ev.denseCount == system.dense && ev.stream == system.stream
      && ev.columnMarks == columnMarks && ev.dest == prep.geRowMap
    }

    /** Put the right sides of the chosen rows into the cells of the GE columns. */
    method RightSides() returns (memory: Vec)
      requires Valid() && elim.Complete() && Fresh()
      ensures |memory| == system.Size() + 1 && |geColMap| == Columns() <= |elim.pivots|
      ensures forall i :: 0 <= i < Columns() ==>
        InUse(elim.pivots[i]) && geColMap[i] < |memory|
        && memory[geColMap[i]] == Target(elim.pivots[i])
    {
      hide Compressed, Sound, NoneIn, RowMeant, RowFixed, HasAll, Distinct, ValidCode, Target, PeeledOnly, Targets;
      GeCells();
      PivotBounds();
      var prep := new Preparer(system, LightRows(), extraCount, Columns(), columnMarks, geColMap, elim.pivots, ids,
        input, pad, recovery, geRowMap);
      PreparerReady(prep);
      prep.InitializeColumnValues();
      prep.MapTargets(prep.geRowMap);
      var ev := new Evaluator(system, columnMarks, prep.geRowMap, prep.recovery);
      ev.MultiplyDenseValues();
      memory := ev.recovery;
      forall i | 0 <= i < Columns()
        ensures InUse(elim.pivots[i]) && memory[geColMap[i]] == Target(elim.pivots[i])
      {
        ValueIs(prep, ev, i);
      }
    }

    lemma ValueIs(prep: Preparer, ev: Evaluator, i: nat)
      requires Compressed() && Mapped() && elim.Ready() && elim.Complete() && Fresh()
      requires Prepares(prep) && prep.Fixed() && prep.Sized() && prep.RowsKnown(geRowMap)
        && HasAll(prep.pivots, prep.lightRows)
      requires prep.Started(geRowMap, recovery, Columns()) && prep.Solves(prep.geRowMap, Columns())
      requires forall j :: Columns() <= j < |prep.pivots| && prep.pivots[j] < system.dense ==>
        prep.geRowMap[prep.pivots[j]] == LIST_TERM
      requires Evaluates(ev, prep) && ev.Fixed() && ev.Sized()
        && ev.Summed(prep.recovery, WindowCount(N(), system.dense))
      requires i < Columns()
      ensures i < |elim.pivots| && i < |geColMap| && geColMap[i] < |ev.recovery| && InUse(elim.pivots[i])
      ensures ev.recovery[geColMap[i]] == Target(elim.pivots[i])
    {
      hide Compressed, Sound, NoneIn, HasAll, Add, DenseSum, Distinct, Target, RightOf, TempOf, Temps;
      GeCells();
      PivotBounds();
      StartIsTarget(prep, i);
      var r := elim.pivots[i];
      var c := geColMap[i];
      if r < system.dense {
        assert ev.dest[r] == c;
        assert c != LIST_TERM;
        AddZero(DenseSum(system.stream, system.dense, WindowCount(N(), system.dense), r, Temps()));
      } else {
        forall q | 0 <= q < system.dense ensures ev.dest[q] != c { NotTarget(prep, i, q); }
        assert c !in ev.dest[..system.dense];
      }
    }

    /** The cell of a chosen row that is not dense is no target of a dense row. */
    lemma NotTarget(prep: Preparer, i: nat, q: nat)
      requires Prepares(prep) && prep.Fixed() && prep.Sized() && HasAll(prep.pivots, prep.lightRows)
        && prep.Solves(prep.geRowMap, Columns())
      requires forall j :: Columns() <= j < |prep.pivots| && prep.pivots[j] < system.dense ==>
        prep.geRowMap[prep.pivots[j]] == LIST_TERM
      requires i < Columns() && system.dense <= elim.pivots[i] && q < system.dense && N() + system.Mix() <= LIST_TERM
      ensures prep.geRowMap[q] != geColMap[i]
    {
      hide ValidSystem;
      var j := prep.PlaceOf(q);
    }

    /** The chosen rows as they were before elimination. */
    ghost function Chosen(): (o: seq<Vec>)
      requires Compressed() && elim.Ready() && elim.Complete()
      reads elim
      ensures |o| == Columns() && forall i :: 0 <= i < Columns() ==>
        i < |elim.pivots| && elim.pivots[i] < |elim.orig|
        && o[i] == elim.orig[elim.pivots[i]]
    {
      PivotBounds();
      OrigCount();
      Select(elim.orig, elim.pivots[..Columns()])
    }

    lemma OrigCount()
      requires Compressed() && elim.Ready() && elim.Complete()
      ensures |elim.orig| == Columns() + extraCount && |elim.upper| == Columns() && Square(elim.upper, Columns())
    {
      hide Fit, Done, UsesFinal, ColumnsKnown, Linked, HasAll, NoneIn, BitsRow, MixedRow, HeavyRow, Factoring,
        UsedAgree, HeavyFresh;
      SoundBounds(elim.M(), elim.pivots, elim.orig, elim.upper);
      assert Columns() == LightRows() + HEAVY_ROWS;
      SoundFactored(elim.M(), elim.pivots, elim.orig, elim.upper);
    }

    lemma ChosenFactored()
      requires Compressed() && elim.Ready() && elim.Complete()
      ensures Factored(Chosen(), elim.upper, Columns())
    {
      hide Fit, Done, UsesFinal, ColumnsKnown, Linked, HasAll, NoneIn, Sound;
      PivotBounds();
      OrigCount();
      SoundFactored(elim.M(), elim.pivots, elim.orig, elim.upper);
      assert Select(elim.orig, elim.pivots)[..Columns()] == Chosen();
    }

    ghost predicate Generates(g: Generator)
      reads g, elim
    {
      && g.system == system && g.n == N() && g.denseCount == system.dense && g.deferCount == deferCount
        && g.extraCount == extraCount
      && g.columns == Columns() && g.firstHeavy == elim.firstHeavyColumn && g.columnMarks == columnMarks
        && g.geColMap == geColMap
      && g.pivots == elim.pivots && g.ge == elim.ge && g.heavy == elim.heavy && g.up == elim.upper
    }

    lemma GeneratorReady(g: Generator)
      requires Compressed() && elim.Ready() && elim.Complete() && Generates(g)
      ensures g.Eliminated() && g.Mapped()
    {
      hide Fit, Done, UsesFinal, ColumnsKnown, Linked, HasAll, NoneIn, BitsRow, MixedRow, HeavyRow, Factoring,
        HeavyFresh;
      GeCells();
      PivotBounds();
      OrigCount();
      SoundFactored(elim.M(), elim.pivots, elim.orig, elim.upper);
      assert g.M() == elim.M();
    }

    /** No upper row that a window of back substitution passes over has an entry there. */
    ghost predicate Reached()
      reads elim
    {
      |elim.upper| <= |elim.pivots| && NothingSkipped(elim.upper, columnMarks, elim.firstHeavyColumn, elim.pivots)
    }

    /** So it is when there are few enough GE rows. */
    lemma FewRows()
      requires Valid() && elim.Complete() && LightRows() + extraCount <= ROW_LIMIT
      ensures Reached()
    {
      hide Compressed, Sound, NoneIn, RowMeant, RowFixed, HasAll;
      PivotBounds();
      OrigCount();
      EarlyPivots();
      BelowLimit(elim.upper, columnMarks, elim.firstHeavyColumn, elim.pivots);
    }

    /** The pivots before the heavy columns are no heavy rows. */
    lemma EarlyPivots()
      requires Compressed() && elim.Ready() && elim.Complete()
      ensures forall i :: 0 <= i < Columns() && i < |elim.pivots| && i < elim.firstHeavyColumn ==>
        elim.pivots[i] < LightRows() + extraCount
    {
      hide Fit, Done, UsesFinal, ColumnsKnown, Linked, HasAll, NoneIn, BitsRow, MixedRow, HeavyRow, Factoring,
        HeavyFresh;
      PivotBounds();
      OrigCount();
      SoundFactored(elim.M(), elim.pivots, elim.orig, elim.upper);
    }

    /** Solve the GE columns from the right sides in their cells. */
    method SolveColumns(memory0: Vec) returns (memory: Vec, ghost b: Vec, ghost y: Vec, ghost x: Vec)
      requires Valid() && elim.Complete()
      requires |memory0| == system.Size() + 1 && |geColMap| == Columns() && Within(geColMap, |memory0|)
      ensures |memory| == |memory0| && b == ValsOf(geColMap, memory0) && x == ValsOf(geColMap, memory)
      ensures Columns() <= |elim.upper| && ForwardDone(elim.upper, b, y, Columns())
      ensures Reached() ==> BackDone(elim.upper, y, x, Columns())
    {
      hide Compressed, Sound, NoneIn, RowMeant, RowFixed, HasAll, ForwardDone, BackDone, NothingSkipped, Unskipped;
      var g := new Generator(system, deferCount, extraCount, Columns(), elim.firstHeavyColumn, columnMarks, geColMap,
        elim.pivots,
        elim.ge, elim.heavy, elim.upper, memory0);
      GeneratorReady(g);
      OrigCount();
      b := g.Vals();
      g.AddSubdiagonalValues(b);
      y := g.Vals();
      g.BackSubstituteAboveDiagonal(y);
      x := g.Vals();
      AllUnskipped(elim.upper, columnMarks, elim.firstHeavyColumn, elim.pivots);
      memory := g.recovery;
    }

    /** b is the right sides of the chosen rows. */
    ghost predicate IsRight(b: Vec)
      requires Compressed() && Mapped() && elim.Ready() && elim.Complete()
      reads `ids, `input, `geRowMap, elim
    {
      && |b| == Columns() <= |elim.pivots|
      && (forall i :: 0 <= i < Columns() ==> InUse(elim.pivots[i]) && b[i] == Target(elim.pivots[i]))
    }

    /** A chosen equation holds exactly when the reduced one does. */
    lemma HoldsReduced(b: Vec, i: nat, z: Vec)
      requires Valid() && elim.Complete() && PeelSolution(plan, peelInput, z) && i < Columns() && |z| == system.Size()
        && IsRight(b)
      ensures i < |elim.pivots| && Assigns(plan, z) && |Chosen()[i]| == Columns()
      ensures UsedHolds(i, z) <==> Dot(Chosen()[i], Ge(plan, z), Columns()) == b[i]
    {
      hide Done, UsesFinal, ColumnsKnown, Linked, HasAll, NoneIn, Sound, Add, Dot, Left, TempOf, RightOf, Planned,
        AllTemps, Ge, RowFixed;
      PivotBounds();
      PivotInUse(i);
      var r := elim.pivots[i];
      assert RowMeant(r);
      var l, t, v := Left(system, KindOf(r), z), TempOf(system, KindOf(r), Temps()), RightOf(r);
      SameSum(l, v, t);
    }

    lemma SameSum(a: Byte, b: Byte, t: Byte)
      ensures Add(a, t) == Add(b, t) <==> a == b
    {}

    /** The solutions of the chosen equations are those of the reduced system. */
    lemma UsedReduced(b: Vec, z: Vec)
      requires Valid() && elim.Complete() && PeelSolution(plan, peelInput, z) && |z| == system.Size() && IsRight(b)
      ensures Assigns(plan, z)
      ensures UsedHold(z) <==> Solution(Chosen(), b, Ge(plan, z), Columns())
    {
      hide Compressed, NoneIn, HasAll, Sound, PeelSolution, UsedHolds, Ge, Dot, Distinct, RowMeant, RowFixed;
      PivotBounds();
      Widths(z);
      forall i | 0 <= i < Columns()
        ensures |Chosen()[i]| == Columns() && (UsedHolds(i, z) <==> Dot(Chosen()[i], Ge(plan, z), Columns()) == b[i])
      {
        HoldsReduced(b, i, z);
      }
    }

    lemma Widths(z: Vec)
      requires Compressed() && |z| == system.Size()
      ensures Planned(plan) && Width(plan) == Columns() && Assigns(plan, z)
        && |plan.solves| == |peelInput| == N() == plan.n
      ensures geColMap == GeMap(plan) && plan.mixCount == system.Mix()
    {}

    /** Two sets of blocks satisfying the chosen equations are the same. */
    lemma UsedUnique(z: Vec, z': Vec, b: Vec, y: Vec)
      requires Valid() && elim.Complete() && UsedHold(z) && UsedHold(z') && |z| == |z'| == system.Size() && IsRight(b)
      requires Columns() <= |elim.upper| && ForwardDone(elim.upper, b, y, Columns())
      requires Planned(plan) && Assigns(plan, z) && |Ge(plan, z)| == Columns()
        && BackDone(elim.upper, y, Ge(plan, z), Columns())
      ensures z == z'
    {
      hide Compressed, NoneIn, HasAll, Sound, UsedHolds, Dot, Distinct, RowMeant, RowFixed, Solution, BackDone,
        ForwardDone, Factored,
        PeelSolution, Ge;
      Widths(z);
      Widths(z');
      assert PeelSolution(plan, peelInput, z) && PeelSolution(plan, peelInput, z');
      UsedReduced(b, z);
      UsedReduced(b, z');
      ChosenFactored();
      SolutionUnique(Chosen(), elim.upper, b, y, Ge(plan, z), Ge(plan, z'), Columns());
      PeelUnique(plan, peelInput, z, z');
    }

    lemma RecoverySize()
      requires Valid()
      ensures |recovery| == system.Size() + 1 && |ids| == |input| && ValidSystem(system)
    {
      hide Done, UsesFinal, ColumnsKnown, Linked, RowMeant, RowFixed, Sound, HasAll, NoneIn;
    }

    /** The recovery blocks without the temporary one. */
    ghost function Blocks(): (z: Vec)
      requires |recovery| == system.Size() + 1
      reads `recovery
      ensures |z| == system.Size()
    {
      recovery[..system.Size()]
    }

    lemma TargetsAreRight(memory: Vec)
      requires Compressed() && Mapped() && elim.Ready() && elim.Complete() && |geColMap| == Columns() <= |elim.pivots|
      requires forall i :: 0 <= i < Columns() ==>
        InUse(elim.pivots[i]) && geColMap[i] < |memory|
        && memory[geColMap[i]] == Target(elim.pivots[i])
      ensures Within(geColMap, |memory|) && IsRight(ValsOf(geColMap, memory))
    {
      hide Compressed, Sound, NoneIn, HasAll, Target, RightOf, TempOf, Distinct;
    }

    /** The restorer's view of the state. */
    ghost predicate Restores(r: Restorer)
      reads this, r
    {
      && r.system == system && r.n == N() && r.nexts == nexts && r.peelHead == peelHead && r.solves == solves
      && r.ids == ids && r.input == input && r.pad == pad && r.plan == plan
    }

    lemma RestorerReady(r: Restorer)
      requires Valid() && Restores(r)
      ensures r.Fixed()
    {
      hide Sound, NoneIn, RowMeant, HasAll, Done, UsesFinal, ColumnsKnown, Linked, ValidCode, Planned, RowColumns,
        MixColumns;
      assert plan.n == N() && plan.mixCount == system.Mix();
      forall q | 0 <= q < N() ensures r.RowFixed(q) { assert RowFixed(q); }
    }

    /** A peeled row that holds as received holds in the plan's terms. */
    lemma HoldsPlanned(r: Restorer, q: nat)
      requires Valid() && Restores(r) && r.Fixed() && r.Sized() && q < N() && r.Holds(q)
      ensures Assigns(plan, r.Z()) && RowHolds(plan, q, peelInput[q], r.Z())
    {
      hide Sound, NoneIn, RowMeant, HasAll, Done, UsesFinal, ColumnsKnown, Linked, ValidCode, Planned, RowColumns,
        MixColumns, Add, SumOf;
      assert RowFixed(q);
    }

    lemma PeelsHold(r: Restorer)
      requires Valid() && Restores(r) && r.Fixed() && r.Sized() && r.HoldTo(|plan.peels|)
      ensures PeelSolution(plan, peelInput, r.Z())
    {
      hide Sound, NoneIn, RowMeant, HasAll, Done, UsesFinal, ColumnsKnown, Linked, ValidCode, RowHolds, Restorer.Holds;
      hide RowFixed, Restorer.RowFixed;
      forall q | 0 <= q < |plan.solves| && Peels(plan, q) ensures RowHolds(plan, q, peelInput[q], r.Z()) {
        assert RowPlanned(plan, q);
        assert plan.peels[plan.position[plan.solves[q]]] == q;
        HoldsPlanned(r, q);
      }
    }

    /** Substitution leaves the GE columns as they were solved. */
    lemma GeKept(r: Restorer, memory: Vec)
      requires Compressed() && Restores(r) && r.Fixed() && r.Sized() && |memory| == system.Size() + 1
        && r.OnlyPeeled(memory)
      requires Within(geColMap, |memory|)
      ensures Planned(plan) && Assigns(plan, r.Z()) && Ge(plan, r.Z()) == ValsOf(geColMap, memory)
        && |Ge(plan, r.Z())| == Columns()
    {
      hide Done, UsesFinal, ColumnsKnown, Linked, ValidCode, Planned, Restorer.RowFixed;
      GeCells();
      Widths(r.Z());
      GeIs(plan, r.Z());
      var x := ValsOf(geColMap, memory);
      forall k | 0 <= k < Columns() ensures Ge(plan, r.Z())[k] == x[k] {
        assert geColMap[k] < system.Size();
      }
    }

    /** Solve for the recovery blocks: unless an entry was passed over, they satisfy the chosen equations,
        and nothing else does. */
    method Generate()
      requires Valid() && elim.Complete() && Fresh()
      modifies `recovery
      ensures Valid() && (Reached() ==> UsedHold(Blocks()))
      ensures Reached() ==> forall z: Vec :: |z| == system.Size() && UsedHold(z) ==> z == Blocks()
    {
      hide Compressed, Sound, NoneIn, RowMeant, RowFixed, HasAll, ForwardDone, BackDone, Target, IsRight, PeeledOnly,
        PeelSolution, UsedHold, Fresh,
        Factored, Solution, Distinct, Ge, Restorer.HoldTo, Restorer.OnlyPeeled, Restorer.Fixed, Planned, Reached;
      var memory := RightSides();
      TargetsAreRight(memory);
      ghost var b, y, x;
      memory, b, y, x := SolveColumns(memory);
      var r := new Restorer(system, nexts, peelHead, solves, ids, input, pad, plan, memory);
      RestorerReady(r);
      PeelsKnown(r);
      r.Substitute();
      recovery := r.recovery;
      if Reached() { Generated(r, memory, b, y, x); }
    }

    lemma PeelsKnown(r: Restorer)
      requires Compressed() && Restores(r)
      ensures Planned(plan) && r.plan == plan && r.n == N() && N() + system.Mix() == system.Size()
    {}

    lemma Generated(r: Restorer, memory: Vec, b: Vec, y: Vec, x: Vec)
      requires Valid() && elim.Complete() && IsRight(b) && Restores(r) && r.Fixed() && r.Sized()
      requires r.HoldTo(|plan.peels|) && |memory| == system.Size() + 1 && r.OnlyPeeled(memory) && r.recovery == recovery
      requires Within(geColMap, |memory|) && x == ValsOf(geColMap, memory)
      requires Columns() <= |elim.upper| && ForwardDone(elim.upper, b, y, Columns())
        && BackDone(elim.upper, y, x, Columns())
      ensures UsedHold(Blocks()) && forall z: Vec :: |z| == system.Size() && UsedHold(z) ==> z == Blocks()
    {
      hide Compressed, Sound, NoneIn, RowMeant, RowFixed, HasAll, ForwardDone, BackDone, Target, IsRight, PeelSolution,
        UsedHolds,
        Factored, Solution, Distinct, Ge, Restorer.HoldTo, Restorer.OnlyPeeled, Restorer.Fixed, Planned;
      PeelsKnown(r);
      var z := Blocks();
      assert z == r.Z();
      PeelsHold(r);
      GeKept(r, memory);
      ChosenFactored();
      SubstitutionsSolve(Chosen(), elim.upper, b, y, x, Columns());
      UsedReduced(b, z);
      forall z': Vec | |z'| == system.Size() && UsedHold(z') ensures z' == z {
        UsedUnique(z, z', b, y);
      }
    }

    /** z satisfies the equations of all rows held. */
    ghost predicate RowsHold(z: Vec)
      requires ValidSystem(system) && |z| == system.Size() && |ids| == |input|
      reads `ids, `input
    {
      forall q :: 0 <= q < |ids| ==> RowLeft(system, ids[q], z) == InputAt(q)
    }

    /** A codeword that agrees with every row held satisfies the equations that were used. */
    lemma CodewordUsed(z: Vec)
      requires Valid() && elim.Complete() && |z| == system.Size() && Codeword(system, z) && RowsHold(z)
      ensures UsedHold(z)
    {
      hide Compressed, Sound, NoneIn, HasAll, Distinct, RowMeant, RowFixed, UsedHolds, PeelSolution, RowLeft, DenseLeft,
        HeavyLeft, Codeword;
      PivotBounds();
      forall i | 0 <= i < Columns() ensures UsedHolds(i, z) { CodewordHolds(i, z); }
      Widths(z);
      forall q | 0 <= q < |plan.solves| && Peels(plan, q) ensures RowHolds(plan, q, peelInput[q], z) {
        RowIsPlanned(q, z); }
      assert PeelSolution(plan, peelInput, z) by { PeelSolutionIs(z); }
    }

    lemma PeelSolutionIs(z: Vec)
      requires Planned(plan) && |peelInput| == |plan.solves| && Assigns(plan, z)
      ensures PeelSolution(plan, peelInput, z) <==> forall q :: 0 <= q < |plan.solves| && Peels(plan, q) ==>
        RowHolds(plan, q, peelInput[q], z)
    {
      hide Planned, RowHolds;
    }

    /** A row of the plan holds when its equation does. */
    lemma RowIsPlanned(q: nat, z: Vec)
      requires Valid() && q < N() && |z| == system.Size()
      ensures Assigns(plan, z) && Planned(plan) && |plan.solves| == |peelInput| == N() && q < |ids| && q < |input|
      ensures RowHolds(plan, q, peelInput[q], z) <==> RowLeft(system, ids[q], z) == InputAt(q)
    {
      hide Sound, NoneIn, RowMeant, HasAll, Done, UsesFinal, ColumnsKnown, Linked, ValidCode, Planned, RowColumns,
        MixColumns, Add, SumOf;
      Widths(z);
      assert RowFixed(q);
    }

    lemma CodewordHolds(i: nat, z: Vec)
      requires Compressed() && Mapped() && elim.Ready() && i < |elim.pivots| && |z| == system.Size()
        && Codeword(system, z) && RowsHold(z)
      ensures UsedHolds(i, z)
    {
      hide Fit, Done, UsesFinal, ColumnsKnown, Linked, NoneIn, HasAll, Distinct, RowLeft, DenseLeft, HeavyLeft;
      PivotInUse(i);
      var r := elim.pivots[i];
      if system.dense <= r < LightRows() + elim.extraUsed { RowOf(r); }
    }

    /** With no row beyond the first n, every GE row in use is a pivot. */
    lemma EveryRowChosen(r: nat) returns (i: nat)
      requires Compressed() && elim.Ready() && elim.Complete() && elim.extraUsed == 0 && InUse(r)
      ensures i < Columns() && i < |elim.pivots| && elim.pivots[i] == r
    {
      hide Fit, Done, UsesFinal, ColumnsKnown, Linked, HasAll, Sound;
      GeCells();
      PivotBounds();
      var chosen := elim.pivots[..Columns()];
      forall k | 0 <= k < Columns() ensures chosen[k] < LightRows()
        || LightRows() + extraCount <= chosen[k] < Columns() + extraCount {
        PivotInUse(k);
      }
      GapFull(chosen, LightRows(), extraCount, r);
      i :| 0 <= i < Columns() && chosen[i] == r;
    }

    /** What was solved satisfies the equation of every GE row then. */
    lemma EquationHolds(r: nat, z: Vec)
      requires Valid() && elim.Complete() && elim.extraUsed == 0 && |z| == system.Size() && UsedHold(z) && InUse(r)
      ensures Left(system, KindOf(r), z) == RightOf(r)
    {
      hide Compressed, Sound, NoneIn, HasAll, Distinct, RowMeant, RowFixed, PeelSolution, Left, KindOf, RightOf;
      var i := EveryRowChosen(r);
      assert UsedHolds(i, z);
    }

    lemma SparseHolds(q: nat, z: Vec)
      requires Valid() && elim.Complete() && elim.extraUsed == 0 && |z| == system.Size() && UsedHold(z) && q < N()
      ensures q < |ids| && q < |input| && RowLeft(system, ids[q], z) == InputAt(q)
    {
      hide Sound, NoneIn, HasAll, Distinct, RowMeant, RowFixed, RowLeft, Fit, Done, UsesFinal, ColumnsKnown, Linked,
        UsedHolds, RowHolds;
      RowIsPlanned(q, z);
      if Peels(plan, q) {
        assert RowHolds(plan, q, peelInput[q], z);
      } else {
        var k :| 0 <= k < |defers| && defers[k] == q;
        EquationHolds(system.dense + k, z);
        RowOf(system.dense + k);
      }
    }

    /** Then what was solved is a codeword that agrees with every row. */
    lemma UsedIsCodeword(z: Vec)
      requires Valid() && elim.Complete() && elim.extraUsed == 0 && |z| == system.Size() && UsedHold(z)
      ensures Codeword(system, z) && RowsHold(z)
    {
      hide Compressed, Sound, NoneIn, HasAll, Distinct, RowMeant, RowFixed, RowLeft, DenseLeft, HeavyLeft, UsedHold;
      CodeKnown();
      forall r | 0 <= r < system.dense ensures DenseLeft(system, r, z) == ZERO { EquationHolds(r, z); }
      forall h | 0 <= h < HEAVY_ROWS ensures HeavyLeft(system, h, z) == ZERO {
        EquationHolds(LightRows() + extraCount + h, z); }
      forall q | 0 <= q < |ids| ensures RowLeft(system, ids[q], z) == InputAt(q) { SparseHolds(q, z); }
    }

    // ---------- One more row ----------

    /** The mixing columns of a row, among the GE columns. */
    method MixBits(id: nat) returns (bits: Bits)
      requires Compressed()
      ensures |bits| == Columns() && Width(plan) == Columns()
      ensures forall z: Vec :: PeelSolution(plan, peelInput, z) ==>
        BitDot(bits, Ge(plan, z)) == SumOf(MixColumns(system.code, id), z)
    {
      hide Done, UsesFinal, ColumnsKnown, Linked, ValidCode, RowMix, PeelSolution, BitDot, SumOf, Planned;
      var mix := RowMix(system.code, id);
      bits := NoBits(Columns());
      bits := Flip(bits, mix[0] + deferCount);
      bits := Flip(bits, mix[1] + deferCount);
      bits := Flip(bits, mix[2] + deferCount);
      forall z: Vec | PeelSolution(plan, peelInput, z) ensures Assigns(plan, z) { SolutionAssigns(plan, peelInput, z); }
      forall z: Vec | PeelSolution(plan, peelInput, z) ensures BitDot(bits, Ge(plan, z)) ==
        SumOf(MixColumns(system.code, id), z) {
        MixRowDot(system, plan, id, z);
      }
    }

    /** Add what stands for one sparse column. */
    method AddColumn(bits: Bits, c: nat) returns (r: Bits)
      requires ColumnsKnown(columnMarks, uses, compress, N(), Columns()) && |bits| == Columns() && c < N()
      ensures r == XorBits(bits, SourceOf(columnMarks, uses, compress, N(), Columns(), c))
    {
      assert ColumnKnown(columnMarks, uses, N(), Columns(), c);
      if columnMarks[c].Peel? {
        r := XorBits(bits, compress[uses[c].row]);
      } else {
        r := Flip(bits, uses[c].column);
        assert r == XorBits(bits, SourceOf(columnMarks, uses, compress, N(), Columns(), c));
      }
    }

    /** The GE row of a received row. */
    method NewRow(id: nat) returns (bits: Bits)
      requires Compressed()
      ensures |bits| == Columns() && Meant(system, plan, peelInput, BitsRow(bits), SparseKind(id), Temps())
    {
      hide Fit, Done, UsesFinal, ColumnsKnown, Linked, Meant, PeelSolution, BitsRow, XorBits, XorSum, SourceOf,
        RowColumns, MixColumns, BitDot, SumOf, AllTemps;
      CodeKnown();
      var mixed := MixBits(id);
      var list := ListColumns(system.code, id);
      ghost var src := SourceSeq(plan, uses, compress);
      bits := mixed;
      var i := 0;
      assert bits == XorBits(mixed, XorSum(list[..0], src, Columns())) by { XorNone(mixed, list, src); }
      while i < |list|
        invariant 0 <= i <= |list| && |bits| == Columns() && bits == XorBits(mixed, XorSum(list[..i], src, Columns()))
      {
        bits := AddColumn(bits, list[i]);
        XorNext(mixed, list, i, src);
        i := i + 1;
      }
      assert list[..|list|] == list;
      ExtraMeans(system, plan, uses, compress, temp0, peelInput, id, bits, mixed);
    }

    lemma CodeKnown()
      requires Compressed()
      ensures ValidCode(system.code) && ValidSystem(system) && plan.n == N() && Width(plan) == Columns()
        && plan.columnMarks == columnMarks
      ensures Fit(system, plan, peelInput) && ColumnsKnown(columnMarks, uses, compress, N(), Columns())
        && |peelInput| == N()
    {}

    lemma XorNone(mixed: Bits, list: seq<nat>, src: seq<Bits>)
      requires |mixed| == Columns() && forall c :: 0 <= c < |src| ==> |src[c]| == Columns()
      ensures XorBits(mixed, XorSum(list[..0], src, Columns())) == mixed
    {
      assert list[..0] == [];
    }

    lemma XorNext(mixed: Bits, list: seq<nat>, i: nat, src: seq<Bits>)
      requires |mixed| == Columns() && i < |list| && Within(list, |src|) && forall c :: 0 <= c < |src| ==>
        |src[c]| == Columns()
      ensures XorBits(XorBits(mixed, XorSum(list[..i], src, Columns())), src[list[i]]) ==
        XorBits(mixed, XorSum(list[..i + 1], src, Columns()))
    {
      assert list[..i + 1][..i] == list[..i] && list[..i + 1][i] == list[i];
    }

    /** The row of a listed GE row can be given up for another one. */
    predicate IsExtra(r: nat) {
      LightRows() <= r < LightRows() + extraCount
    }

    /** No row can be given up: none is listed beyond the pivots, or the first is at the head of the list. */
    ghost predicate NoSlot()
      reads elim
    {
      forall i :: elim.nextPivot <= i < |elim.pivots| && IsExtra(elim.pivots[i]) ==>
        elim.nextPivot == 0
        && IsExtra(elim.pivots[0])
    }

    /** The first listed extra row that is not a pivot, or 0. */
    method FindSlot() returns (slot: nat)
      requires elim.nextPivot <= |elim.pivots|
      ensures slot == 0 <==> NoSlot()
      ensures slot != 0 ==> elim.nextPivot <= slot < |elim.pivots| && IsExtra(elim.pivots[slot])
      ensures forall j :: elim.nextPivot <= j < slot ==> !IsExtra(elim.pivots[j])
    {
      var i := elim.nextPivot;
      while i < |elim.pivots|
        invariant elim.nextPivot <= i <= |elim.pivots|
        invariant forall j :: elim.nextPivot <= j < i ==> !IsExtra(elim.pivots[j])
      {
        if IsExtra(elim.pivots[i]) {
          return i;
        }
        i := i + 1;
      }
      return 0;
    }

    ghost predicate Full()
      reads `ids
    {
      |ids| >= N() + extraCount
    }

    /** Row slot q now holds another received row. */
    ghost predicate Took(ids0: seq<nat>, input0: Vec, q: nat, id: nat, value: Byte)
      reads `ids, `input
    {
      && N() <= q <= |ids0| == |input0|
      && ids == (if q < |ids0| then ids0[q := id] else ids0 + [id])
      && input == (if q < |ids0| then input0[q := value] else input0 + [value])
    }

    /** The new row and its GE row have their places. */
    ghost predicate Placed(map0: seq<nat>, slot: nat, gi: nat, q: nat)
      reads `geRowMap, elim
    {
      && elim.Spare(slot, gi) && gi < |map0| && geRowMap == map0[gi := q] && LightRows() <= gi
        && q == N() + (gi - LightRows())
    }

    /** Find room for one more received row and store it there. */
    method TakeSlot(id: nat, value: Byte) returns (found: bool, slot: nat, gi: nat, ghost q: nat)
      requires Valid() && elim.Stuck()
      modifies `ids, `input, `geRowMap
      ensures found <==> !(old(Full()) && old(NoSlot()))
      ensures !found ==> ids == old(ids) && input == old(input) && geRowMap == old(geRowMap)
      ensures found ==> Took(old(ids), old(input), q, id, value) && (q == old(|ids|) <==> !old(Full()))
      ensures found ==> Placed(old(geRowMap), slot, gi, q) && (slot == |elim.pivots| <==> q == old(|ids|))
    {
      hide Compressed, Sound, NoneIn, RowMeant, RowFixed, HasAll, Distinct, ZeroAt, Meant;
      Stops();
      if |ids| >= N() + extraCount {
        slot := FindSlot();
        if slot == 0 {
          q := 0;
          return false, 0, 0, q;
        }
        gi := elim.pivots[slot];
        var row := geRowMap[gi];
        q := row;
        ids, input := ids[row := id], input[row := value];
        assert geRowMap[gi := q] == geRowMap;
      } else {
        slot, gi := |elim.pivots|, LightRows() + |ids| - N();
        var row := |ids|;
        q := row;
        geRowMap := geRowMap[gi := row];
        ids, input := ids + [id], input + [value];
      }
      found := true;
    }

    ghost predicate MappedWas(ids0: seq<nat>, input0: Vec, map0: seq<nat>, used0: nat) {
      && |ids0| == |input0| == N() + used0 && used0 <= extraCount && |map0| == Columns() + extraCount
        && |defers| == deferCount
      && (forall r :: system.dense <= r < LightRows() ==> map0[r] == defers[r - system.dense] < N())
      && (forall r :: LightRows() <= r < LightRows() + used0 ==> map0[r] == N() + (r - LightRows()))
    }

    /** What Valid says about the rows, of earlier values of the fields. */
    ghost predicate RowsWere(ids0: seq<nat>, input0: Vec, map0: seq<nat>, orig0: seq<Vec>, used0: nat)
      requires Compressed()
    {
      && MappedWas(ids0, input0, map0, used0)
      && (forall r ::
            (0 <= r < LightRows() + extraCount + HEAVY_ROWS
             && (r < LightRows() + used0 || LightRows() + extraCount <= r))
            ==> MeantWas(ids0, map0, orig0, r))
      && |plan.columnsOf| == |plan.mixOf| == N()
      && (forall q :: 0 <= q < N() ==> FixedWas(ids0, input0, q))
    }

    ghost predicate FixedWas(ids0: seq<nat>, input0: Vec, q: nat)
      requires Compressed() && q < |ids0| && q < |input0| && q < N() && q < |plan.columnsOf| && q < |plan.mixOf|
    {
      && plan.columnsOf[q] == RowColumns(system.code, ids0[q]) && plan.mixOf[q] == MixColumns(system.code, ids0[q])
      && (if pad && q == N() - 1 then ZERO else input0[q]) == peelInput[q]
    }

    ghost predicate MeantWas(ids0: seq<nat>, map0: seq<nat>, orig0: seq<Vec>, r: nat)
      requires Compressed()
    {
      r < |orig0| && MeantAs(ids0, map0, orig0[r], r)
    }

    ghost predicate MeantAs(ids0: seq<nat>, map0: seq<nat>, o: Vec, r: nat)
      requires Compressed()
    {
      if r < system.dense then Meant(system, plan, peelInput, o, DenseKind(r), Temps())
      else if r < LightRows() + extraCount then
        r < |map0| && map0[r] < |ids0| && Meant(system, plan, peelInput, o, SparseKind(ids0[map0[r]]), Temps())
      else Meant(system, plan, peelInput, o, HeavyKind(r - LightRows() - extraCount), Temps())
    }

    lemma RowsAre()
      requires Valid()
      ensures RowsWere(ids, input, geRowMap, elim.orig, elim.extraUsed)
    {
      hide Compressed, Sound, NoneIn, HasAll, Distinct, ZeroAt, Meant, RowColumns, MixColumns, RowFixed, FixedWas,
        RowMeant, MeantWas;
      forall r | 0 <= r < LightRows() + extraCount + HEAVY_ROWS && InUse(r)
        ensures MeantWas(ids, geRowMap, elim.orig, r) { RowIs(r); }
      forall q | 0 <= q < N() ensures FixedWas(ids, input, q) { FixedIs(q); }
    }

    lemma RowIs(r: nat)
      requires Compressed() && Mapped() && InUse(r)
      ensures RowMeant(r) <==> MeantWas(ids, geRowMap, elim.orig, r)
    {
      hide Compressed, Meant;
      if system.dense <= r < LightRows() + elim.extraUsed { RowOf(r); }
    }

    lemma FixedIs(q: nat)
      requires Compressed() && Mapped() && q < N() && |plan.columnsOf| == |plan.mixOf| == N()
      ensures RowFixed(q) <==> FixedWas(ids, input, q)
    {
      hide Fit, Done, UsesFinal, ColumnsKnown, Linked, RowColumns, MixColumns;
    }

    lemma MappedStill(ids0: seq<nat>, input0: Vec, map0: seq<nat>, used0: nat, gi: nat, q: nat, id: nat, value: Byte)
      requires MappedWas(ids0, input0, map0, used0)
      requires Took(ids0, input0, q, id, value) && elim.extraUsed == used0 + (if q == |ids0| then 1 else 0)
      requires gi < |map0| && geRowMap == map0[gi := q] && LightRows() <= gi < LightRows() + extraCount
        && q == N() + (gi - LightRows())
      ensures Mapped()
    {
      forall r | LightRows() <= r < LightRows() + elim.extraUsed ensures geRowMap[r] == N() + (r - LightRows()) {
        if r != gi { assert geRowMap[r] == map0[r]; }
      }
      forall r | system.dense <= r < LightRows() ensures geRowMap[r] == defers[r - system.dense] < N() {
        assert geRowMap[r] == map0[r]; }
    }

    /** The rows after one more was placed. */
    lemma RowsStill(ids0: seq<nat>, input0: Vec, map0: seq<nat>, orig0: seq<Vec>, used0: nat, gi: nat, q: nat, id: nat,
      value: Byte, bits: Bits)
      requires Compressed() && RowsWere(ids0, input0, map0, orig0, used0) && Took(ids0, input0, q, id, value)
      requires gi < |map0| && geRowMap == map0[gi := q] && LightRows() <= gi < LightRows() + extraCount
        && q == N() + (gi - LightRows())
      requires elim.extraUsed == used0 + (if q == |ids0| then 1 else 0) && elim.Ready() && elim.extraRows == extraCount
      requires gi < |orig0| && elim.orig == orig0[gi := BitsRow(bits)] && |recovery| == system.Size() + 1
      requires Meant(system, plan, peelInput, BitsRow(bits), SparseKind(id), Temps())
      ensures Valid()
    {
      hide Compressed, Sound, NoneIn, HasAll, Distinct, ZeroAt, Meant, RowColumns, MixColumns, RowFixed, FixedWas,
        RowMeant, MeantWas, ValidSystem;
      CodeKnown();
      MappedStill(ids0, input0, map0, used0, gi, q, id, value);
      forall r | 0 <= r < LightRows() + extraCount + HEAVY_ROWS && InUse(r) ensures RowMeant(r) {
        if r == gi { NewMeant(r, id, bits); } else { OldMeant(ids0, input0, map0, orig0, used0, gi, q, id, value, bits,
          r); }
        RowIs(r);
      }
      forall x | 0 <= x < N() ensures RowFixed(x) {
        OldFixed(ids0, input0, q, id, value, x);
        FixedIs(x);
      }
    }

    lemma NewMeant(r: nat, id: nat, bits: Bits)
      requires Compressed() && LightRows() <= r < LightRows() + extraCount && r < |elim.orig|
        && elim.orig[r] == BitsRow(bits)
      requires r < |geRowMap| && geRowMap[r] < |ids| && ids[geRowMap[r]] == id
      requires Meant(system, plan, peelInput, BitsRow(bits), SparseKind(id), Temps())
      ensures MeantWas(ids, geRowMap, elim.orig, r)
    {
      hide Compressed, Meant;
    }

    lemma OldMeant(ids0: seq<nat>, input0: Vec, map0: seq<nat>, orig0: seq<Vec>, used0: nat, gi: nat, q: nat, id: nat,
      value: Byte, bits: Bits, r: nat)
      requires Compressed() && RowsWere(ids0, input0, map0, orig0, used0) && Took(ids0, input0, q, id, value)
      requires gi < |map0| && geRowMap == map0[gi := q] && LightRows() <= gi < LightRows() + extraCount
        && q == N() + (gi - LightRows())
      requires elim.extraUsed == used0 + (if q == |ids0| then 1 else 0) && elim.extraRows == extraCount
      requires gi < |orig0| && elim.orig == orig0[gi := BitsRow(bits)]
      requires r != gi && r < LightRows() + extraCount + HEAVY_ROWS && InUse(r)
      ensures MeantWas(ids, geRowMap, elim.orig, r)
    {
      hide Compressed, Meant, FixedWas;
      assert MeantWas(ids0, map0, orig0, r);
    }

    lemma OldFixed(ids0: seq<nat>, input0: Vec, q: nat, id: nat, value: Byte, x: nat)
      requires Compressed() && Took(ids0, input0, q, id, value) && x < N() && |plan.columnsOf| == |plan.mixOf| == N()
      requires x < |ids0| && x < |input0| && FixedWas(ids0, input0, x)
      ensures x < |ids| && x < |input| && FixedWas(ids, input, x)
    {
      hide Compressed, RowColumns, MixColumns;
    }

    /** Solve on with one more received row, in a new slot or in that of a row that was of no use. */
    method Resume(id: nat, value: Byte) returns (r: Resumed, ghost q: nat)
      requires Valid() && elim.Stuck()
      modifies `ids, `input, `geRowMap, elim
      ensures Valid()
      ensures r == ExtraInsufficient <==> old(Full()) && old(NoSlot())
      ensures r == ExtraInsufficient ==> ids == old(ids) && input == old(input) && elim.Stuck() && NoSlot()
      ensures r != ExtraInsufficient ==> Took(old(ids), old(input), q, id, value) && (q == old(|ids|) <==> !old(Full()))
      ensures r == NeedMore ==> elim.Stuck()
      ensures r == Solved ==> elim.Complete()
    {
      hide Compressed, Sound, NoneIn, RowMeant, RowFixed, HasAll, Distinct, ZeroAt, Meant, Mapped, RowsWere;
      Stops();
      ghost var ids0, input0, map0, orig0, used0 := ids, input, geRowMap, elim.orig, elim.extraUsed;
      RowsAre();
      var found, slot, gi;
      found, slot, gi, q := TakeSlot(id, value);
      if !found {
        return ExtraInsufficient, q;
      }
      var bits := NewRow(id);
      var ok := elim.Resume(slot, gi, bits);
      r := if ok then Solved else NeedMore;
      RowsStill(ids0, input0, map0, orig0, used0, gi, q, id, value, bits);
    }

    lemma Stops()
      requires Compressed() && elim.Stuck()
      ensures elim.lightRows == LightRows() && elim.extraRows == extraCount && elim.columns == Columns()
      ensures elim.nextPivot == |elim.upper| <= |elim.pivots|
      ensures Columns() >= LightRows() && |elim.orig| == Columns() + extraCount
    {
      hide Fit, Done, UsesFinal, ColumnsKnown, Linked, HasAll, NoneIn, BitsRow, MixedRow, HeavyRow, Factoring,
        UsedAgree, HeavyFresh;
      SoundBounds(elim.M(), elim.pivots, elim.orig, elim.upper);
    }

    /** The GE row of the late row in slot q is a pivot. */
    ghost predicate IsPivot(q: nat)
      requires elim.nextPivot <= |elim.pivots|
      reads elim
    {
      exists j :: 0 <= j < elim.nextPivot && elim.pivots[j] == LightRows() + (q - N())
    }

    /** The late rows that could be given up are exactly those that are no pivot. None can be when each is one,
        and when the first listed row is a late one while no pivot is known: its place reads as "none". */
    lemma SlotMeans()
      requires Valid() && elim.Stuck()
      ensures elim.nextPivot <= |elim.pivots|
      ensures NoSlot() <==>
        || (forall q: nat :: N() <= q < |ids| ==> IsPivot(q))
        || (elim.nextPivot == 0 && |elim.pivots| > 0 && LightRows() <= elim.pivots[0] < LightRows() + (|ids| - N()))
    {
      hide Compressed, Sound, RowMeant, RowFixed, ZeroAt, Meant;
      Stops();
      var late := LightRows() + (|ids| - N());
      assert forall i :: 0 <= i < |elim.pivots| && IsExtra(elim.pivots[i]) ==> elim.pivots[i] < late;
      if NoSlot() && !(elim.nextPivot == 0 && |elim.pivots| > 0 && LightRows() <= elim.pivots[0] < late) {
        forall q: nat | N() <= q < |ids| ensures IsPivot(q) {
          var r: nat := LightRows() + (q - N());
          assert r in elim.pivots;
          var i :| 0 <= i < |elim.pivots| && elim.pivots[i] == r;
          assert IsExtra(elim.pivots[i]);
        }
      }
      if !NoSlot() {
        var i :| elim.nextPivot <= i < |elim.pivots| && IsExtra(elim.pivots[i]);
        assert !IsPivot(N() + (elim.pivots[i] - LightRows()));
      }
    }
  }

  lemma SystemSizes(s: System)
    requires ValidSystem(s)
    ensures s.Size() == s.code.n + s.code.mixCount && ValidCode(s.code)
  {}

  /** Stages one and two: peel what is left and compress. */
  method PeelAndCompress(p: Peeler, s: System, input: Vec, pad: bool, memory: Vec) returns (c: Compressor)
    requires p.Feeding() && |p.ids| == p.code.n == |input| && |p.nextColumns| == p.code.n && |memory| == s.Size() + 1
    requires ValidSystem(s) && s.code == p.code && s.dense <= MAX_DENSE_ROWS
    modifies p
    ensures fresh(c) && Ready(c, s) && Balanced(c) && c.ids == old(p.ids) && c.input == input && c.pad == pad
  {
    hide Peeler.Feeding, Peeler.Peeled, Compressor.Fixed, Compressor.Working, UsesFinal, SolvesWritten, ValidSystem,
      ValidCode;
    SystemSizes(s);
    p.GreedyPeeling();
    p.DeferredBalance();
    c := new Compressor(p, input, pad, memory);
    c.Compress();
  }

  /** Stages one to three: peel what is left, compress and search the GE matrix for pivots. */
  method SolveMatrix(p: Peeler, s: System, extraCount: nat, input: Vec, pad: bool, memory: Vec)
    returns (solver: Solver, ok: bool)
    requires p.Feeding() && |p.ids| == p.code.n == |input| && |p.nextColumns| == p.code.n && |memory| == s.Size() + 1
    requires ValidSystem(s) && s.code == p.code && s.dense <= MAX_DENSE_ROWS
    modifies p
    ensures fresh(solver) && fresh(solver.elim) && solver.Valid() && solver.Fresh()
    ensures solver.system == s && solver.extraCount == extraCount && solver.pad == pad
    ensures solver.ids == old(p.ids) && solver.input == input
    ensures if ok then solver.elim.Complete() else solver.elim.Stuck()
  {
    hide Peeler.Feeding, Ready, FirstRow, Solver.Compressed, Solver.RowMeant, Solver.RowFixed, ValidSystem, Sound,
      NoneIn, HasAll, ZeroAt;
    var c := PeelAndCompress(p, s, input, pad, memory);
    var e, rowMap := Assembled(c, s, extraCount);
    solver := new Solver(c, s, extraCount, e, rowMap);
    solver.StartsFresh();
    ok := e.Triangle();
  }
}

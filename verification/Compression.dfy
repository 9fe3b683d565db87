/** Stage 2, the algorithm: the compression matrix is set up with the deferred columns of every
    row, and each peeled row is added to the rows that contain its column, in bits and in blocks. */
module Compression {
  import opened GF256
  import opened Linear
  import opened Elimination
  import opened Rows
  import opened PeelState
  import opened Peeling
  import opened Sums
  import opened Diagonal
  import opened Meaning

  class Compressor {
    const code: Code
    const ids: seq<nat>
    const nexts: seq<nat>
    const peelHead: nat
    const deferHead: nat
    const refs: seq<seq<nat>>
    const columnMarks: seq<Mark>
    const nextColumns: seq<nat>
    const deferColumnHead: nat
    const deferCount: nat
    const input: Vec
    const pad: bool

    ghost const plan: Plan
    ghost const defers: seq<nat>
    ghost const solvers: seq<Use>

    var marks: seq<Marks>
    var uses: seq<Use>
    var compress: seq<Bits>
    var recovery: Vec
    var geColMap: seq<nat>

    /** The links, references and marks that peeling left. */
    ghost predicate Fixed() {
      && ValidCode(code) && Planned(plan) && plan.n == code.n == |ids| == |input| == |plan.solves|
      && plan.mixCount == code.mixCount && plan.columnMarks == columnMarks && deferCount == |plan.deferColumns|
      && RefsOk(code.n, plan.columnsOf, refs) && |nexts| == code.n
      && Linked(nexts, plan.peels, peelHead) && Linked(nexts, defers, deferHead)
      && Linked(nextColumns, plan.deferColumns, deferColumnHead) && |nextColumns| == code.n
      && (forall q :: 0 <= q < |ids| ==> RowFixed(q))
      && |solvers| == code.n
      && (forall c :: 0 <= c < code.n && columnMarks[c].Peel? ==> SolverKnown(c))
    }

    ghost predicate SolverKnown(c: nat)
      requires c < |solvers|
    {
      c in plan.position && plan.position[c] < |plan.peels| && solvers[c] == SolvedBy(plan.peels[plan.position[c]])
    }

    ghost predicate RowFixed(q: nat)
      requires ValidCode(code) && q < |ids| && |plan.columnsOf| == |plan.mixOf| == |plan.solves| == |ids|
    {
      && plan.columnsOf[q] == RowColumns(code, ids[q])
      && plan.mixOf[q] == MixColumns(code, ids[q])
      && (q in defers <==> plan.solves[q] == LIST_TERM)
    }

    /** The input block of row q; beyond the end of a short final block the padding is zero. */
    function InputAt(q: nat): Byte
      requires q < |input|
    {
      if pad && q == |input| - 1 then ZERO else input[q]
    }

    ghost function Inputs(): (r: Vec)
      ensures |r| == |input|
    {
      seq(|input|, q requires 0 <= q < |input| => InputAt(q))
    }

    ghost predicate Sized()
      reads this
    {
      && |compress| == code.n && (forall q :: 0 <= q < |compress| ==> |compress[q]| == Width(plan))
      && |recovery| == code.n + code.mixCount + 1 && |marks| == |uses| == code.n
    }

    /** Takes over what peeling left; the workspace may hold anything. */
    constructor (p: Peeler, input: Vec, pad: bool, memory: Vec)
      requires p.Peeled() && |p.ids| == p.code.n == |input| && |memory| == p.code.n + p.code.mixCount + 1
      ensures Fixed() && Sized() && code == p.code && ids == p.ids && this.input == input && this.pad == pad
      ensures columnMarks == p.columnMarks && nexts == p.nexts && peelHead == p.peelHead && deferHead == p.deferHead
      ensures recovery == memory && geColMap == [] && uses == solvers && defers == p.defers
        && deferCount == p.deferCount
      ensures SolvesWritten(plan, marks, []) && forall q :: 0 <= q < |compress| ==> compress[q] == NoBits(Width(plan))
    {
      hide InvBut, DeferLinks, Planned, RowColumns, MixColumns, RefsOk, Linked;
      Sizes(p.S(), {}, {}, {});
      code, ids, nexts, refs := p.code, p.ids, p.nexts, p.refs;
      peelHead, deferHead, columnMarks, nextColumns := p.peelHead, p.deferHead, p.columnMarks, p.nextColumns;
      deferColumnHead, deferCount := p.deferColumnHead, p.deferCount;
      this.input, this.pad := input, pad;
      marks, uses, solvers, recovery, geColMap := p.marks, p.uses, p.uses, memory, [];
      plan := MakePlan(p.S(), p.code, p.ids, p.deferColumns);
      defers := p.defers;
      var width := p.deferCount + p.code.mixCount;
      compress := seq(p.code.n, _ => NoBits(width));
      new;
      Inherit(p);
    }

    ghost predicate From(p: Peeler)
      reads p
    {
      && p.Peeled() && |p.ids| == p.code.n == |input| && code == p.code && ids == p.ids
      && |p.ids| == |p.S().marks| == |p.S().columnsOf|
      && nexts == p.nexts && refs == p.refs && peelHead == p.peelHead && deferHead == p.deferHead
      && columnMarks == p.columnMarks && nextColumns == p.nextColumns && deferColumnHead == p.deferColumnHead
      && deferCount == p.deferCount && defers == p.defers && solvers == p.uses
      && plan == MakePlan(p.S(), p.code, p.ids, p.deferColumns)
    }

    lemma InheritRow(p: Peeler, q: nat)
      requires From(p) && q < |ids|
      ensures RowFixed(q)
      ensures q !in defers ==> p.marks[q].Result? && p.marks[q].column == plan.solves[q] && !p.marks[q].copied
    {
      hide InvBut, RowColumns, RowMix, DeferLinks, MixColumns;
      PlanDefers(p.S(), code, ids, p.deferColumns, q);
    }

    lemma InheritColumn(p: Peeler, c: nat)
      requires From(p) && c < code.n && c < |columnMarks| && columnMarks[c].Peel? && c < |solvers|
      ensures SolverKnown(c)
    {
      var s := p.S();
      assert UseOk(s.columnMarks, s.uses, s.peels, s.position, {});
      assert UseOf(s.columnMarks[c], s.uses[c], s.peels, s.position, c, {});
    }

    lemma InheritLists(p: Peeler)
      requires From(p)
      ensures |columnMarks| == |solvers| == |refs| == |nexts| == code.n && deferCount == |plan.deferColumns|
        && |nextColumns| == code.n
      ensures Linked(nexts, plan.peels, peelHead) && Linked(nexts, defers, deferHead)
        && Linked(nextColumns, plan.deferColumns, deferColumnHead)
      ensures RefsOk(code.n, plan.columnsOf, refs) && ValidCode(code)
    {
      hide RefsOk, Linked, ReachOk, SolvesOk, OrderOk, UseOk, RowsOk, RowColumns, MixColumns;
      Sizes(p.S(), {}, {}, {});
    }

    lemma InheritPlan(p: Peeler)
      requires From(p)
      ensures Planned(plan)
    {
      hide InvBut, RowColumns, RowMix, Linked, Planned, NoRepeat;
      assert NoRepeat(p.deferColumns) by { LinkedDistinct(p.nextColumns, p.deferColumns, p.deferColumnHead); }
      PlanIsPlanned(p.S(), code, ids, p.deferColumns);
    }

    lemma Inherit(p: Peeler)
      requires From(p)
      ensures Fixed() && Width(plan) == deferCount + code.mixCount && SolvesWritten(plan, p.marks, [])
    {
      hide InvBut, RowColumns, MixColumns, RefsOk, Linked, Planned, RowFixed, SolverKnown, ValidCode, DeferLinks;
      InheritLists(p);
      InheritPlan(p);
      forall q | 0 <= q < |ids|
        ensures RowFixed(q) && (q in defers <==> plan.solves[q] == LIST_TERM)
        ensures q !in defers ==> p.marks[q].Result? && p.marks[q].column == plan.solves[q] && !p.marks[q].copied
      {
        InheritRow(p, q);
        assert RowFixed(q) ==> (q in defers <==> plan.solves[q] == LIST_TERM) by { FixedRow(q); }
      }
      forall c | 0 <= c < code.n && columnMarks[c].Peel? ensures SolverKnown(c) { InheritColumn(p, c); }
    }

    lemma FixedRow(q: nat)
      requires ValidCode(code) && q < |ids| && |plan.columnsOf| == |plan.mixOf| == |plan.solves| == |ids|
      ensures RowFixed(q) ==> (q in defers <==> plan.solves[q] == LIST_TERM)
    {}

    lemma LinkedDistinct(nexts: seq<nat>, list: seq<nat>, head: nat)
      requires Linked(nexts, list, head)
      ensures NoRepeat(list)
    {}

    /** Mark which deferred columns each row has, and map the GE columns. */
    method SetDeferredColumns()
      requires Fixed() && Sized() && geColMap == []
      requires forall q :: 0 <= q < |compress| ==> compress[q] == NoBits(Width(plan))
      modifies `compress, `geColMap, `uses
      ensures Sized() && geColMap == GeMap(plan)
      ensures Marked(plan, compress, |plan.deferColumns|) && Numbered(plan, uses, old(uses), |plan.deferColumns|)
    {
      hide RefsOk, RowFixed, Marked, Numbered, Planned, Linked, ValidCode;
      ghost var list := plan.deferColumns;
      PlanSmall(plan);
      var column := deferColumnHead;
      var k := 0;
      LinkNext(nextColumns, list, deferColumnHead, 0);
      MarkedNone(plan, compress);
      assert Numbered(plan, uses, uses, 0) by { NumberedNone(plan, uses); }
      while column != LIST_TERM
        invariant 0 <= k <= |list| && column == (if k < |list| then list[k] else LIST_TERM)
        invariant Sized() && geColMap == list[..k]
        invariant Marked(plan, compress, k) && Numbered(plan, uses, old(uses), k)
        decreases |list| - k
      {
        DeferredBelow(plan, k);
        LinkNext(nextColumns, list, deferColumnHead, k);
        MarkRows(column, k);
        NumberedNext(plan, uses, old(uses), k);
        assert list[..k + 1] == list[..k] + [column];
        geColMap := geColMap + [column];
        uses := uses[column := GEColumn(k)];
        column := nextColumns[column];
        k := k + 1;
      }
      if k < |list| { DeferredBelow(plan, k); }
      assert list[..k] == list;
      MapMixing();
    }

    /** The GE columns behind the deferred ones are the mixing columns. */
    method MapMixing()
      requires geColMap == plan.deferColumns && plan.n == code.n && plan.mixCount == code.mixCount
      modifies `geColMap
      ensures geColMap == GeMap(plan)
    {
      var added := 0;
      while added < code.mixCount
        invariant 0 <= added <= code.mixCount
        invariant geColMap == plan.deferColumns + seq(added, m requires 0 <= m => plan.n + m)
      {
        geColMap := geColMap + [code.n + added];
        added := added + 1;
      }
    }

    /** Set bit k in the rows that contain deferred column number k. */
    method MarkRows(column: nat, k: nat)
      requires Fixed() && Sized() && k < |plan.deferColumns| && column == plan.deferColumns[k]
      requires Marked(plan, compress, k)
      modifies `compress
      ensures Sized() && Marked(plan, compress, k + 1)
    {
      hide RowFixed, Planned, Linked, RefsOk, FirstBits, ValidCode;
      DeferredBelow(plan, k);
      RefsTell(plan, refs, column);
      assert |refs| == code.n by { RefsCount(plan, refs); }
      var list := refs[column];
      var i := 0;
      while i < |list|
        invariant 0 <= i <= |list| && Sized()
        invariant MarkedIn(plan, compress, k, list[..i])
      {
        MarkedRow(plan, compress, k, list, i);
        compress := compress[list[i] := compress[list[i]][k := true]];
        i := i + 1;
      }
      MarkedColumn(plan, compress, k, list);
    }

    lemma RefsCount(p: Plan, refs: seq<seq<nat>>)
      requires RefsOk(p.n, p.columnsOf, refs)
      ensures |refs| == p.n
    {}

    /** Deferred rows take their mixing columns in at once and are marked as deferred. */
    method SetMixingColumnsForDeferredRows()
      requires Fixed() && Sized() && Marked(plan, compress, |plan.deferColumns|)
      requires SolvesWritten(plan, marks, [])
      modifies `compress, `marks
      ensures Sized() && SolvesWritten(plan, marks, defers)
      ensures Started(plan, compress, defers)
    {
      hide RefsOk, Marked, Planned, RowPlanned, Linked, ValidCode, MixColumns, MixFlipped, DeferBits, RowColumns,
        StartBits;
      PlanSmall(plan);
      StartedNone(plan, compress);
      LinkNext(nexts, defers, deferHead, 0);
      var row := deferHead;
      ghost var k := 0;
      assert defers[..0] == [];
      while row != LIST_TERM
        invariant 0 <= k <= |defers| && row == (if k < |defers| then defers[k] else LIST_TERM)
        invariant Sized() && Started(plan, compress, defers[..k]) && SolvesWritten(plan, marks, defers[..k])
        decreases |defers| - k
      {
        LinkNext(nexts, defers, deferHead, k);
        assert RowFixed(row);
        StartedRow(plan, compress, defers, k);
        marks := marks[row := Result(LIST_TERM, false)];
        var bits := FlipMix(row, compress[row]);
        compress := compress[row := bits];
        row := nexts[row];
        k := k + 1;
      }
      if k < |defers| { LinkNext(nexts, defers, deferHead, k); }
      assert defers[..k] == defers;
    }

    lemma MixAt(row: nat)
      requires Fixed() && row < |ids|
      ensures RowPlanned(plan, row) && |plan.mixOf[row]| == 3
      ensures forall k :: 0 <= k < 3 ==>
        deferCount + RowMix(code, ids[row])[k] == |plan.deferColumns| + (plan.mixOf[row][k] - plan.n) < Width(plan)
    {
      hide RefsOk, Linked;
      assert RowFixed(row) && RowPlanned(plan, row);
    }

    /** A row of bits with those of the mixing columns of a row flipped. */
    method FlipMix(row: nat, bits: Bits) returns (r: Bits)
      requires Fixed() && row < |ids| && |bits| == Width(plan)
      ensures RowPlanned(plan, row) && r == MixFlipped(plan, row, bits)
    {
      hide RefsOk, Linked, Planned, RowFixed, RowMix, ValidCode, RowPlanned, Flip;
      MixAt(row);
      var mix := RowMix(code, ids[row]);
      r := Flip(bits, deferCount + mix[0]);
      r := Flip(r, deferCount + mix[1]);
      r := Flip(r, deferCount + mix[2]);
    }

    /** The temporary blocks and compression rows after i peeled rows. */
    ghost predicate Working(i: nat)
      reads this
    {
      Sized() && Diagonalized(plan, i, compress, recovery, Inputs(), marks)
    }

    /** Add row r, which solves column c, to the row q that contains c too. */
    method AddToRow(r: nat, c: nat, q: nat)
      requires Sized() && Planned(plan) && Results(plan, marks) && |input| == code.n
      requires r < code.n && q < code.n && r != q && c < code.n && |plan.solves| == code.n
      requires Peels(plan, q) ==> plan.solves[q] < code.n
      modifies `compress, `recovery, `marks
      ensures Sized() && Results(plan, marks)
      ensures compress == old(compress)[q := XorBits(old(compress)[q], old(compress)[r])]
      ensures if Peels(plan, q) then
          && marks == old(marks)[q := Result(plan.solves[q], true)]
          && recovery == old(recovery)[plan.solves[q] :=
               Add(if old(marks)[q].copied then old(recovery)[plan.solves[q]] else InputAt(q), old(recovery)[c])]
        else marks == old(marks) && recovery == old(recovery)
    {
      hide Planned, Add, XorBits;
      compress := compress[q := XorBits(compress[q], compress[r])];
      var column := marks[q].column;
      if column != LIST_TERM {
        if marks[q].copied {
          recovery := recovery[column := Add(recovery[column], recovery[c])];
        } else {
          recovery := recovery[column := Add(InputAt(q), recovery[c])];
        }
        marks := marks[q := Result(column, true)];
      }
    }

    /** Add row r to every other row that contains the column it solves. */
    method AddToReferencing(r: nat, c: nat)
      requires Fixed() && Sized() && Results(plan, marks) && r < code.n && c < code.n
      requires Peels(plan, r) && plan.solves[r] == c && Fits(plan, compress, recovery)
      modifies `compress, `recovery, `marks
      ensures Sized() && Results(plan, marks)
      ensures Spread(plan, r, c, old(compress), compress, old(recovery), recovery, Inputs(), old(CopiedOf(marks)),
        CopiedOf(marks))
    {
      hide RefsOk, Linked, Planned, RowFixed, ValidCode, Spread, PartSpread, Add, XorBits;
      ghost var compress0, recovery0, copied0 := compress, recovery, CopiedOf(marks);
      PlanSmall(plan);
      RefsTell(plan, refs, c);
      RefsCount(plan, refs);
      var list := refs[c];
      PartSpreadNone(plan, list, r, c, compress, recovery, Inputs(), copied0);
      var k := 0;
      while k < |list|
        invariant 0 <= k <= |list| && Sized() && Results(plan, marks)
        invariant PartSpread(plan, list, k, r, c, compress0, compress, recovery0, recovery, Inputs(), copied0,
          CopiedOf(marks))
      {
        var q := list[k];
        ghost var compress1, recovery1, copied1 := compress, recovery, CopiedOf(marks);
        if q != r {
          if Peels(plan, q) { PeelFacts(plan, q); }
          AddToRow(r, c, q);
          assert Peels(plan, q) ==> CopiedOf(marks) == copied1[q := true];
        }
        PartSpreadNext(plan, list, k, r, c, compress0, compress1, compress, recovery0, recovery1, recovery,
          Inputs(), copied0, copied1, CopiedOf(marks));
        k := k + 1;
      }
      PartSpreadAll(plan, list, r, c, compress0, compress, recovery0, recovery, Inputs(), copied0, CopiedOf(marks));
    }

    /** Process the i-th peeled row. */
    method PeelRowDiagonal(r: nat, ghost i: nat)
      requires Fixed() && Working(i) && i < |plan.peels| && r == plan.peels[i]
      modifies `compress, `recovery, `marks
      ensures Working(i + 1)
    {
      hide RefsOk, Linked, Planned, RowFixed, ValidCode, Spread, RowPlanned, Add, MixFlipped, MeansAll, GatheredAll;
      PeelAt(plan, i);
      PlanSmall(plan);
      ghost var compress0, recovery0, marks0 := compress, recovery, marks;
      var c := marks[r].column;
      var bits := FlipMix(r, compress[r]);
      compress := compress[r := bits];
      if !marks[r].copied {
        recovery := recovery[c := InputAt(r)];
      }
      ghost var compress1, recovery1 := compress, recovery;
      assert Taken(plan, i, compress0, compress1, recovery0, recovery1, Inputs(), marks0[r].copied);
      TakenFits(plan, i, compress0, compress1, recovery0, recovery1, Inputs(), marks0[r].copied);
      AddToReferencing(r, c);
      DiagonalStep(plan, i, compress0, compress1, compress, recovery0, recovery1, recovery, Inputs(), marks0, marks);
    }

    /** Eliminate the peeled columns in the order they were solved. */
    method PeelDiagonal()
      requires Fixed() && Working(0)
      modifies `compress, `recovery, `marks
      ensures Working(|plan.peels|)
    {
      hide RefsOk, Linked, Planned, RowFixed, ValidCode, Working;
      PlanSmall(plan);
      LinkNext(nexts, plan.peels, peelHead, 0);
      var row := peelHead;
      ghost var i := 0;
      while row != LIST_TERM
        invariant 0 <= i <= |plan.peels| && row == (if i < |plan.peels| then plan.peels[i] else LIST_TERM)
        invariant Working(i)
        decreases |plan.peels| - i
      {
        LinkNext(nexts, plan.peels, peelHead, i);
        PeelRowDiagonal(row, i);
        row := nexts[row];
        i := i + 1;
      }
      if i < |plan.peels| { LinkNext(nexts, plan.peels, peelHead, i); }
    }

    /** The whole stage. */
    method Compress()
      requires Fixed() && Sized() && geColMap == [] && uses == solvers && SolvesWritten(plan, marks, [])
      requires forall q :: 0 <= q < |compress| ==> compress[q] == NoBits(Width(plan))
      modifies this
      ensures Working(|plan.peels|) && geColMap == GeMap(plan) && UsesFinal(plan, uses)
    {
      hide Fixed, Working, Diagonalized, Marked, Numbered, Started, SolvesWritten, UsesFinal;
      SetDeferredColumns();
      Finish();
      SetMixingColumnsForDeferredRows();
      StartDiagonal();
      PeelDiagonal();
    }

    lemma Finish()
      requires Fixed() && Numbered(plan, uses, solvers, |plan.deferColumns|)
      ensures UsesFinal(plan, uses)
    {
      hide Planned, RefsOk, Linked, RowFixed, ValidCode;
      PlanSmall(plan);
      assert plan.deferColumns[..|plan.deferColumns|] == plan.deferColumns;
      forall c | 0 <= c < plan.n ensures UseFinal(plan, uses[c], c) {
        DeferredIff(plan, c);
        if columnMarks[c].Peel? { assert SolverKnown(c); }
      }
    }

    lemma StartDiagonal()
      requires Fixed() && Sized() && Started(plan, compress, defers) && SolvesWritten(plan, marks, defers)
      ensures Working(0)
    {
      hide Planned, RefsOk, Linked, ValidCode, Started, SolvesWritten, Diagonalized;
      PlanSmall(plan);
      forall q | 0 <= q < |plan.solves| ensures q in defers <==> !Peels(plan, q) { assert RowFixed(q); }
      DiagonalStart(plan, compress, recovery, Inputs(), marks, defers);
    }
  }
}

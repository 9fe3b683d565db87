/** The right side of every chosen GE row before the dense rows are multiplied: zero for dense and
    heavy rows, the input block and the peeled columns of the row for all others. */
module Preparation {
  import opened GF256
  import opened Linear
  import opened Elimination
  import opened Rows
  import opened PeelState
  import opened Sums
  import opened Equations
  import opened Evaluation

  class Preparer {
    const system: System
    const n: nat
    const lightRows: nat
    const denseCount: nat
    const extraCount: nat
    const columns: nat
    const columnMarks: seq<Mark>
    const geColMap: seq<nat>
    const pivots: seq<nat>
    const ids: seq<nat>
    const input: Vec
    const pad: bool

    var recovery: Vec
    var geRowMap: seq<nat>

    constructor (system: System, lightRows: nat, extraCount: nat, columns: nat, columnMarks: seq<Mark>,
      geColMap: seq<nat>,
      pivots: seq<nat>, ids: seq<nat>, input: Vec, pad: bool, recovery: Vec, geRowMap: seq<nat>)
      ensures this.system == system && n == system.code.n && denseCount == system.dense
      ensures this.lightRows == lightRows && this.extraCount == extraCount && this.columns == columns
      ensures this.columnMarks == columnMarks && this.geColMap == geColMap && this.pivots == pivots
      ensures this.ids == ids && this.input == input && this.pad == pad
      ensures this.recovery == recovery && this.geRowMap == geRowMap
    {
      this.system, n, denseCount := system, system.code.n, system.dense;
      this.lightRows, this.extraCount, this.columns := lightRows, extraCount, columns;
      this.columnMarks, this.geColMap, this.pivots := columnMarks, geColMap, pivots;
      this.ids, this.input, this.pad := ids, input, pad;
      this.recovery, this.geRowMap := recovery, geRowMap;
    }

    ghost predicate Fixed() {
      && ValidSystem(system) && n == system.code.n == |columnMarks| && denseCount == system.dense <= lightRows
      && columns == lightRows + HEAVY_ROWS && |ids| == |input|
      && columns <= |pivots| && Distinct(pivots) && (forall i :: 0 <= i < |pivots| ==> pivots[i] < columns + extraCount)
      && |geColMap| == columns && NoRepeat(geColMap) && Within(geColMap, n + system.Mix())
      && (forall k :: 0 <= k < columns && geColMap[k] < n ==> !columnMarks[geColMap[k]].Peel?)
    }

    ghost predicate Sized()
      reads this
    {
      |recovery| == n + system.Mix() + 1 && |geRowMap| == columns + extraCount
    }

    /** A GE row that stands for a received row, not for a dense or heavy one. */
    predicate Received(r: nat) {
      denseCount <= r < lightRows + extraCount
    }

    function InputAt(q: nat): Byte
      requires q < |input|
    {
      if pad && q == n - 1 then ZERO else input[q]
    }

    ghost predicate RowsKnown(rowMap0: seq<nat>) {
      |rowMap0| == columns + extraCount
      && forall i :: 0 <= i < columns && i < |pivots| && pivots[i] < |rowMap0| && Received(pivots[i]) ==>
        rowMap0[pivots[i]] < |ids|
    }

    /** The value column i starts from. */
    ghost function Start(rowMap0: seq<nat>, temps: Vec, i: nat): Byte
      requires Fixed() && RowsKnown(rowMap0) && |temps| == n && i < columns
    {
      if Received(pivots[i]) then
        Add(InputAt(rowMap0[pivots[i]]), SumOf(RowColumns(system.code, ids[rowMap0[pivots[i]]]), temps))
      else ZERO
    }

    /** The input block of a row plus its peeled columns, in the cell dest. */
    method Combine(row: nat, dest: nat)
      requires ValidSystem(system) && n == system.code.n == |columnMarks| && |ids| == |input|
      requires Sized() && row < |ids| && dest < n + system.Mix() && (dest < n ==> !columnMarks[dest].Peel?)
      modifies `recovery
      ensures Sized()
      ensures recovery == old(recovery)[dest :=
        Add(InputAt(row), SumOf(RowColumns(system.code, ids[row]), PeeledOnly(columnMarks, old(recovery))))]
    {
      hide ValidCode, SumOf, Add, RowColumns;
      ghost var temps, memory := PeeledOnly(columnMarks, recovery), recovery;
      var combo := true;
      if row == n - 1 {
        recovery := recovery[dest := if pad then ZERO else input[row]];
        combo := false;
      }
      var list := RowColumns(system.code, ids[row]);
      var i := 0;
      assert SumOf(list[..0], temps) == ZERO by { SumNone(list, temps); }
      AddZero(InputAt(row));
      while i < |list|
        invariant 0 <= i <= |list| && Sized() && recovery == memory[dest := recovery[dest]]
        invariant combo ==> row != n - 1 && SumOf(list[..i], temps) == ZERO
        invariant !combo ==> recovery[dest] == Add(InputAt(row), SumOf(list[..i], temps))
      {
        var c := list[i];
        SumNext(list, i, temps);
        AddAssoc(InputAt(row), SumOf(list[..i], temps), temps[c]);
        AddZero(temps[c]);
        AddZero(SumOf(list[..i], temps));
        if columnMarks[c].Peel? {
          if !combo {
            recovery := recovery[dest := Add(recovery[dest], recovery[c])];
          } else {
            recovery := recovery[dest := Add(input[row], recovery[c])];
            combo := false;
          }
        }
        i := i + 1;
      }
      assert list[..i] == list;
      if combo {
        recovery := recovery[dest := input[row]];
      }
    }

    lemma CellKeepsPeeled(memory: Vec, i: nat, a: Byte)
      requires Fixed() && |memory| == n + system.Mix() + 1 && i < columns
      ensures PeeledOnly(columnMarks, memory[geColMap[i] := a]) == PeeledOnly(columnMarks, memory)
    {}

    /** Chosen dense rows know the column they solve. */
    ghost predicate Solves(rowMap: seq<nat>, upto: nat)
      requires |rowMap| == columns + extraCount && upto <= |pivots|
    {
      forall i :: 0 <= i < upto && pivots[i] < denseCount && i < |geColMap| ==>
        pivots[i] < |rowMap|
        && rowMap[pivots[i]] == geColMap[i]
    }

    /** The rows not reached yet are as they were. */
    ghost predicate Untouched(rowMap: seq<nat>, rowMap0: seq<nat>, from: nat) {
      |rowMap| == |rowMap0| && forall j :: from <= j < |pivots| ==>
        pivots[j] < |rowMap|
        && rowMap[pivots[j]] == rowMap0[pivots[j]]
    }

    /** Column i of the first columns pivots. */
    method StartColumn(i: nat, ghost rowMap0: seq<nat>)
      requires Fixed() && Sized() && i < columns && RowsKnown(rowMap0)
      requires Untouched(geRowMap, rowMap0, i) && Solves(geRowMap, i)
      modifies this
      ensures Sized() && Untouched(geRowMap, rowMap0, i + 1) && Solves(geRowMap, i + 1)
      ensures recovery == old(recovery)[geColMap[i] := Start(rowMap0, PeeledOnly(columnMarks, old(recovery)), i)]
    {
      hide ValidSystem, SumOf, Add, RowColumns, PeeledOnly, NoRepeat;
      var dest := geColMap[i];
      var r := pivots[i];
      if r < denseCount || r >= lightRows + extraCount {
        recovery := recovery[dest := ZERO];
        geRowMap := geRowMap[r := dest];
      } else {
        Combine(geRowMap[r], dest);
      }
    }

    /** The columns started so far, the peeled columns as they were. */
    ghost predicate Started(rowMap0: seq<nat>, memory0: Vec, i: nat)
      requires Fixed() && Sized() && RowsKnown(rowMap0) && |memory0| == |recovery| && i <= columns
      reads this
    {
      && PeeledOnly(columnMarks, recovery) == PeeledOnly(columnMarks, memory0)
      && (forall k :: 0 <= k < i ==> recovery[geColMap[k]] == Start(rowMap0, PeeledOnly(columnMarks, memory0), k))
    }

    /** Start every chosen column, then mark the dense rows that were not chosen. */
    method InitializeColumnValues()
      requires Fixed() && Sized() && RowsKnown(geRowMap) && HasAll(pivots, lightRows)
      modifies this
      ensures Sized() && Started(old(geRowMap), old(recovery), columns)
      ensures Solves(geRowMap, columns)
      ensures forall j :: columns <= j < |pivots| && pivots[j] < denseCount ==> geRowMap[pivots[j]] == LIST_TERM
    {
      hide ValidSystem, Start, PeeledOnly;
      ghost var rowMap0, memory0 := geRowMap, recovery;
      var i := 0;
      while i < columns
        invariant 0 <= i <= columns && Sized()
        invariant Untouched(geRowMap, rowMap0, i) && Solves(geRowMap, i) && Started(rowMap0, memory0, i)
      {
        ghost var memory := recovery;
        StartColumn(i, rowMap0);
        CellKeepsPeeled(memory, i, recovery[geColMap[i]]);
        i := i + 1;
      }
      while i < |pivots|
        invariant columns <= i <= |pivots| && Sized() && Solves(geRowMap, columns) && Started(rowMap0, memory0, columns)
        invariant forall j :: columns <= j < i && pivots[j] < denseCount ==> geRowMap[pivots[j]] == LIST_TERM
      {
        var r := pivots[i];
        if r < denseCount || lightRows <= r < columns {
          geRowMap := geRowMap[r := LIST_TERM];
        }
        i := i + 1;
      }
    }

    /** What the rowMap then says about the dense rows. */
    lemma MapTargets(rowMap: seq<nat>)
      requires Fixed() && |rowMap| == columns + extraCount && HasAll(pivots, lightRows) && Solves(rowMap, columns)
      requires n + system.Mix() <= LIST_TERM
      requires forall j :: columns <= j < |pivots| && pivots[j] < denseCount ==> rowMap[pivots[j]] == LIST_TERM
      ensures Targets(rowMap, denseCount, n + system.Mix())
      ensures forall r :: 0 <= r < denseCount && rowMap[r] < n ==> !columnMarks[rowMap[r]].Peel?
    {
      hide ValidSystem;
      forall r | 0 <= r < denseCount
        ensures rowMap[r] == LIST_TERM || (rowMap[r] < n + system.Mix()
          && (rowMap[r] < n ==> !columnMarks[rowMap[r]].Peel?))
      {
        var j := PlaceOf(r);
      }
      forall q, r | 0 <= q < r < denseCount && rowMap[q] != LIST_TERM ensures rowMap[q] != rowMap[r] {
        var i := PlaceOf(q);
        var j := PlaceOf(r);
      }
    }

    lemma PlaceOf(r: nat) returns (j: nat)
      requires Fixed() && HasAll(pivots, lightRows) && r < denseCount
      ensures j < |pivots| && pivots[j] == r
    {
      assert r in pivots;
      j :| 0 <= j < |pivots| && pivots[j] == r;
    }
  }
}

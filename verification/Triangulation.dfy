/** The elimination of stage 3 as it runs: pivot search, in-place clearing, the switch to
    byte rows at the first heavy column, and resuming with one more row. */
module Triangulation {
  import opened GF256
  import opened Linear
  import opened Progress
  import opened Elimination

  class Eliminator {
    const columns: nat
    const lightRows: nat
    const extraRows: nat
    const firstHeavyColumn: nat
    const heavyColumns: nat

    var ge: seq<Bits>
    var heavy: seq<Vec>
    var pivots: seq<nat>
    var nextPivot: nat
    var firstHeavyPivot: nat

    ghost var inserted: bool
    ghost var orig: seq<Vec>
    ghost var upper: seq<Vec>
    ghost var lightEnd: nat
    ghost var extraUsed: nat
    ghost var heavyListed: nat

    constructor (columns: nat, lightRows: nat, extraRows: nat, firstHeavyColumn: nat, ge: seq<Bits>, heavy: seq<Vec>)
      requires firstHeavyColumn <= columns
      ensures this.columns == columns && this.lightRows == lightRows && this.extraRows == extraRows
      ensures this.firstHeavyColumn == firstHeavyColumn && heavyColumns == columns - firstHeavyColumn
      ensures this.ge == ge && this.heavy == heavy && !inserted
    {
      this.columns, this.lightRows, this.extraRows, this.firstHeavyColumn := columns, lightRows, extraRows,
        firstHeavyColumn;
      heavyColumns := columns - firstHeavyColumn;
      this.ge, this.heavy, pivots := ge, heavy, [];
      nextPivot, firstHeavyPivot := 0, 0;
      inserted, orig, upper, lightEnd, extraUsed, heavyListed := false, [], [], 0, 0, 0;
    }

    ghost function M(): Matrix
      reads this
    {
      Matrix(columns, lightRows, extraRows, firstHeavyColumn, ge, heavy, inserted)
    }

    ghost predicate Ready()
      reads this
    {
      && M().Shaped() && heavyColumns == columns - firstHeavyColumn && M().Lists(pivots) && Distinct(pivots)
      && (!inserted ==> heavyListed == 0) && extraUsed <= extraRows
      && NoneIn(pivots, lightRows + extraUsed, lightRows + extraRows) && HasAll(pivots, lightRows + extraUsed)
      && HasFrom(pivots, lightRows + extraRows, heavyListed)
    }

    /** Byte rows come last among the unused rows, so they are tried last. */
    ghost predicate HeavyLast()
      reads this
    {
      inserted && heavyListed == HEAVY_ROWS && firstHeavyColumn <= |upper|
        && ByteRowsLast(pivots, |upper|, lightEnd, lightRows)
    }

    ghost predicate Valid()
      reads this
    {
      Ready() && Sound(M(), pivots, orig, upper) && (inserted ==> HeavyLast())
    }

    /** The search is about to look for the pivot of column nextPivot. */
    ghost predicate Searching()
      reads this
    {
      && Valid() && nextPivot == |upper| <= columns
      && if inserted then firstHeavyPivot == lightEnd else |upper| < firstHeavyColumn
    }

    /** The search has stopped at column nextPivot, where no listed row has an entry. */
    ghost predicate Stuck()
      reads this
    {
      Searching() && |upper| < columns && ZeroAt(M(), pivots, |upper|, |upper|, |pivots|)
    }

    /** A pivot was found for every column. */
    ghost predicate Complete()
      reads this
    {
      Valid() && inserted && |upper| == columns
    }

    /** Held as bits throughout. */
    ghost predicate IsBits(r: nat)
      reads this
    {
      r < |ge| && (inserted ==> r < lightRows)
    }

    /** The first listed row in [from, to) with a bit in column k, or to. */
    method SearchLight(k: nat, from: nat, to: nat) returns (j: nat)
      requires Ready() && k < columns && from <= to <= |pivots|
      requires forall p :: from <= p < to ==> pivots[p] < |ge|
      ensures from <= j <= to
      ensures forall p :: from <= p < j ==> !ge[pivots[p]][k]
      ensures (forall p :: from <= p < to ==> IsBits(pivots[p])) ==> ZeroAt(M(), pivots, k, from, j)
      ensures j < to ==> ge[pivots[j]][k]
    {
      hide BitsRow;
      j := from;
      while j < to && !ge[pivots[j]][k]
        invariant from <= j <= to
        invariant forall p :: from <= p < j ==> !ge[pivots[p]][k]
      {
        j := j + 1;
      }
      forall p | from <= p < j ensures IsBits(pivots[p]) ==> M().Row(pivots[p])[k] == ZERO {
        BitSet(ge[pivots[p]], k);
      }
    }

    /** The first listed byte row from position from on with a non-zero entry in column k, or the end. */
    method SearchHeavy(k: nat, from: nat) returns (j: nat)
      requires Ready() && firstHeavyColumn <= k < columns && from <= |pivots|
      requires forall p :: from <= p < |pivots| ==> lightRows <= pivots[p]
      ensures from <= j <= |pivots|
      ensures forall p :: from <= p < j ==> heavy[pivots[p] - lightRows][k - firstHeavyColumn] == ZERO
      ensures inserted ==> ZeroAt(M(), pivots, k, from, j)
      ensures j < |pivots| ==> heavy[pivots[j] - lightRows][k - firstHeavyColumn] != ZERO
    {
      hide NoneIn, HasAll, HasFrom, BitsRow, MixedRow, HeavyRow;
      j := from;
      while j < |pivots| && heavy[pivots[j] - lightRows][k - firstHeavyColumn] == ZERO
        invariant from <= j <= |pivots|
        invariant forall p :: from <= p < j ==> heavy[pivots[p] - lightRows][k - firstHeavyColumn] == ZERO
      {
        j := j + 1;
      }
      forall p | from <= p < j ensures inserted ==> M().Row(pivots[p])[k] == ZERO {
        if inserted { ByteEntry(pivots[p], k); }
      }
    }

    lemma ByteEntry(r: nat, k: nat)
      requires M().Shaped() && inserted && firstHeavyColumn <= k < columns && heavyColumns == columns - firstHeavyColumn
      requires lightRows <= r < M().RowCount()
      ensures r - lightRows < |heavy| && M().Row(r)[k] == heavy[r - lightRows][k - firstHeavyColumn]
    {}

    /** Clear column k of the listed bit rows in [from, to) with bit row piv. */
    method EliminateLight(k: nat, piv: nat, from: nat, to: nat)
      requires Ready() && k < columns && from <= to <= |pivots| && piv < |ge|
      requires forall p :: from <= p < to ==> pivots[p] < |ge| && pivots[p] != piv
      modifies this`ge
      ensures Ready() && LightPass(old(M()), M(), pivots, k, piv, from, to)
    {
      hide ClearLight, NoneIn, HasAll, HasFrom;
      var i := from;
      while i < to
        invariant from <= i <= to && |ge| == old(|ge|) && ge[piv] == old(ge[piv])
        invariant forall r :: 0 <= r < |ge| ==> |ge[r]| == columns
        invariant forall p :: 0 <= p < |pivots| && pivots[p] < |ge| ==>
          ge[pivots[p]] == if from <= p < i then ClearLight(old(ge)[pivots[p]], ge[piv], k) else old(ge)[pivots[p]]
      {
        var r := pivots[i];
        ge := ge[r := ClearLight(ge[r], ge[piv], k)];
        i := i + 1;
      }
    }

    /** Clear column k of the listed byte rows from position from on with bit row piv. */
    method EliminateMixed(k: nat, piv: nat, from: nat)
      requires Ready() && firstHeavyColumn <= k < columns && from <= |pivots| && piv < |ge|
      requires forall p :: from <= p < |pivots| ==> lightRows <= pivots[p]
      modifies this`heavy
      ensures Ready() && MixedPass(old(M()), M(), pivots, k, piv, from)
    {
      hide ClearByLight, NoneIn, HasAll, HasFrom;
      var i := from;
      while i < |pivots|
        invariant from <= i <= |pivots| && |heavy| == old(|heavy|)
        invariant forall r :: 0 <= r < |heavy| ==> |heavy[r]| == heavyColumns
        invariant forall p :: 0 <= p < |pivots| && lightRows <= pivots[p] ==>
          heavy[pivots[p] - lightRows] ==
            if from <= p < i then ClearByLight(old(heavy)[pivots[p] - lightRows], ge[piv], firstHeavyColumn,
              k - firstHeavyColumn)
            else old(heavy)[pivots[p] - lightRows]
      {
        var r := pivots[i] - lightRows;
        heavy := heavy[r := ClearByLight(heavy[r], ge[piv], firstHeavyColumn, k - firstHeavyColumn)];
        i := i + 1;
      }
    }

    /** Clear column k of the listed byte rows from position from on with byte row piv. */
    method EliminateHeavy(k: nat, piv: nat, from: nat)
      requires Ready() && firstHeavyColumn <= k < columns && from <= |pivots| && piv < |heavy|
      requires forall p :: from <= p < |pivots| ==> lightRows <= pivots[p] && pivots[p] - lightRows != piv
      modifies this`heavy
      ensures Ready() && HeavyPass(old(M()), M(), pivots, k, piv, from)
    {
      hide ClearByHeavy, NoneIn, HasAll, HasFrom;
      var j := from;
      while j < |pivots|
        invariant from <= j <= |pivots| && |heavy| == old(|heavy|) && heavy[piv] == old(heavy[piv])
        invariant forall r :: 0 <= r < |heavy| ==> |heavy[r]| == heavyColumns
        invariant forall p :: 0 <= p < |pivots| && lightRows <= pivots[p] ==>
          heavy[pivots[p] - lightRows] ==
            if from <= p < j then ClearByHeavy(old(heavy)[pivots[p] - lightRows], heavy[piv], k - firstHeavyColumn)
            else old(heavy)[pivots[p] - lightRows]
      {
        var r := pivots[j] - lightRows;
        heavy := heavy[r := ClearByHeavy(heavy[r], heavy[piv], k - firstHeavyColumn)];
        j := j + 1;
      }
    }

    /** Clear column i of the unused light rows below position i and, once the heavy rows
        have joined, of those too; positions (i, j] have it clear already. */
    method ClearBelowLight(i: nat, j: nat, limit: nat)
      requires Ready() && Sound(M(), pivots, orig, upper)
      requires i == |upper| && LightTurn(M(), pivots, i, j, limit)
      modifies this`ge, this`heavy, this`upper
      ensures Ready() && Sound(M(), pivots, orig, upper) && |upper| == i + 1
    {
      hide Sound, NoneIn, HasAll, HasFrom, LightPass, MixedPass;
      ghost var m := M();
      var r := pivots[i];
      EliminateLight(i, r, j + 1, limit);
      if limit < |pivots| {
        EliminateMixed(i, r, limit);
      }
      assert ClearedByLight(m, M(), pivots, i, j, limit);
      SoundClearByLight(m, M(), pivots, orig, upper, j, limit);
      upper := upper + [BitsRow(m.ge[r])];
    }

    /** Clear column i of the byte rows below position j with the byte row at position i. */
    method ClearBelowHeavy(i: nat, j: nat)
      requires Ready() && Sound(M(), pivots, orig, upper)
      requires i == |upper| && HeavyTurn(M(), pivots, i, j)
      modifies this`heavy, this`upper
      ensures Ready() && Sound(M(), pivots, orig, upper) && |upper| == i + 1
    {
      hide Sound, NoneIn, HasAll, HasFrom, HeavyPass;
      ghost var m := M();
      var r := pivots[i] - lightRows;
      EliminateHeavy(i, r, j + 1);
      SoundClearByHeavy(m, M(), pivots, orig, upper, j);
      upper := upper + [m.Row(pivots[i])];
    }

    /** Exchange two unused entries of the pivot list. */
    method SwapUnused(i: nat, j: nat)
      requires Ready() && Sound(M(), pivots, orig, upper) && |upper| <= i <= j < |pivots|
      modifies this`pivots
      ensures Ready() && Sound(M(), pivots, orig, upper)
      ensures pivots == Swapped(old(pivots), i, j)
    {
      hide Sound, NoneIn, HasAll, HasFrom;
      SoundSwap(M(), pivots, orig, upper, i, j);
      NoneInSwap(pivots, lightRows + extraUsed, lightRows + extraRows, i, j);
      HasAllSwap(pivots, lightRows + extraUsed, i, j);
      HasFromSwap(pivots, lightRows + extraRows, heavyListed, i, j);
      var r := pivots[j];
      pivots := pivots[j := pivots[i]][i := r];
      assert pivots == Swapped(old(pivots), i, j);
    }

    method WriteBytes(j: nat)
      requires Ready() && Sound(M(), pivots, orig, upper) && !inserted
      requires j < |pivots| && lightRows <= pivots[j] && HasBytes(M(), pivots, j + 1, |pivots|)
      modifies this`heavy
      ensures Ready() && Sound(M(), pivots, orig, upper)
      ensures forall h :: extraRows <= h < |heavy| ==> heavy[h] == old(heavy)[h]
      ensures HasBytes(M(), pivots, j, |pivots|)
    {
      hide Sound, NoneIn, HasAll, HasFrom, ToBytes;
      ghost var m := M();
      var row := pivots[j];
      heavy := heavy[row - lightRows := ToBytes(ge[row], firstHeavyColumn)];
      SoundBeforeHeavy(m, M(), pivots, orig, upper);
    }

    /** Give the listed extra rows their bytes, moving the unused ones to the end of the list. */
    method ConvertExtraRows() returns (first: nat)
      requires Valid() && !inserted && nextPivot == |upper| == firstHeavyColumn
      modifies this`heavy, this`pivots
      ensures Valid() && |pivots| == old(|pivots|)
      ensures forall h :: extraRows <= h < |heavy| ==> heavy[h] == old(heavy)[h]
      ensures Parted(pivots, lightRows, 0, first, nextPivot)
      ensures HasBytes(M(), pivots, 0, |pivots|)
    {
      hide Sound, NoneIn, HasAll, HasFrom, ToBytes, HasBytes;
      SoundBounds(M(), pivots, orig, upper);
      first := |pivots|;
      var j := |pivots|;
      assert HasBytes(M(), pivots, j, |pivots|) by { NothingListed(j); }
      while j > 0
        invariant Ready() && Sound(M(), pivots, orig, upper) && |pivots| == old(|pivots|)
        invariant 0 <= j <= |pivots|
        invariant forall h :: extraRows <= h < |heavy| ==> heavy[h] == old(heavy)[h]
        invariant Parted(pivots, lightRows, j, first, nextPivot)
        invariant HasBytes(M(), pivots, j, |pivots|)
      {
        j := j - 1;
        var row := pivots[j];
        if lightRows <= row {
          WriteBytes(j);
          if nextPivot <= j {
            PartedSwap(pivots, lightRows, j, first, nextPivot);
            first := first - 1;
            HasBytesSwap(M(), pivots, j, j, first);
            SwapUnused(j, first);
          }
        } else {
          SkipLight(j);
        }
      }
    }

    lemma NothingListed(j: nat)
      requires Ready() && j == |pivots|
      ensures HasBytes(M(), pivots, j, |pivots|)
    {}

    lemma SkipLight(j: nat)
      requires Ready() && j < |pivots| && pivots[j] < lightRows
      requires HasBytes(M(), pivots, j + 1, |pivots|)
      ensures HasBytes(M(), pivots, j, |pivots|)
    {}

    /** List the heavy rows after all others. */
    method AppendHeavyRows()
      requires Ready() && Sound(M(), pivots, orig, upper) && HeavyFresh(M(), orig)
      requires inserted && |upper| == firstHeavyColumn
      requires forall p :: 0 <= p < |pivots| ==> pivots[p] < lightRows + extraRows
      requires heavyListed == 0
      modifies this`pivots, this`heavyListed
      ensures Ready() && heavyListed == HEAVY_ROWS && Sound(M(), pivots, orig, upper)
      ensures |old(pivots)| <= |pivots| && pivots[..|old(pivots)|] == old(pivots)
      ensures forall p :: |old(pivots)| <= p < |pivots| ==> lightRows <= pivots[p]
    {
      hide Sound, NoneIn, HasAll, HasFrom, HeavyFresh;
      var h := 0;
      ghost var count := |pivots|;
      while h < HEAVY_ROWS
        invariant 0 <= h == heavyListed <= HEAVY_ROWS && |pivots| == count + h && pivots[..count] == old(pivots)
        invariant Ready() && Sound(M(), pivots, orig, upper)
        invariant forall p :: 0 <= p < count ==> pivots[p] < lightRows + extraRows
        invariant forall p :: count <= p < |pivots| ==> pivots[p] == lightRows + extraRows + (p - count)
      {
        var r := lightRows + extraRows + h;
        assert r !in pivots;
        SoundAppendHeavy(M(), pivots, orig, upper, r);
        NoneInAppend(pivots, lightRows + extraUsed, lightRows + extraRows, r);
        HasAllAppend(pivots, lightRows + extraUsed, r);
        HasFromAppend(pivots, lightRows + extraRows, heavyListed, r);
        pivots := pivots + [r];
        heavyListed := heavyListed + 1;
        h := h + 1;
      }
    }

    /** Switch to byte rows at the first heavy column. */
    method InsertHeavyRows()
      requires Valid() && !inserted && nextPivot == |upper| == firstHeavyColumn
      modifies this`heavy, this`pivots, this`firstHeavyPivot, this`inserted, this`lightEnd, this`heavyListed
      ensures Searching() && inserted
    {
      hide Sound, NoneIn, HasAll, HasFrom, ToBytes, HeavyFresh;
      SoundBounds(M(), pivots, orig, upper);
      var first := ConvertExtraRows();
      firstHeavyPivot := first;
      lightEnd := first;
      ghost var m := M();
      inserted := true;
      assert forall p :: 0 <= p < |pivots| ==> m.Lists(pivots) && pivots[p] < lightRows + extraRows;
      SoundConvert(m, M(), pivots, orig, upper);
      ghost var list := pivots;
      AppendHeavyRows();
      assert forall p :: 0 <= p < |list| ==> pivots[p] == pivots[..|list|][p];
    }

    /** Triangulate the columns no heavy row protects. */
    method TriangleNonHeavy() returns (ok: bool)
      requires Searching() && !inserted
      modifies this`ge, this`heavy, this`pivots, this`upper, this`nextPivot, this`firstHeavyPivot, this`inserted,
        this`lightEnd, this`heavyListed
      ensures if ok then Searching() && inserted else Stuck()
    {
      hide Sound, NoneIn, HasAll, HasFrom;
      var i := nextPivot;
      while i < firstHeavyColumn
        invariant Valid() && !inserted && i == |upper| <= firstHeavyColumn
      {
        SoundBounds(M(), pivots, orig, upper);
        var j := SearchLight(i, i, |pivots|);
        if j == |pivots| {
          nextPivot := i;
          return false;
        }
        ZeroSwap(M(), pivots, i, i, j);
        SwapUnused(i, j);
        ClearBelowLight(i, j, |pivots|);
        i := i + 1;
      }
      nextPivot := i;
      InsertHeavyRows();
      return true;
    }

    /** Use the light row found at position j as the pivot of heavy column i. */
    method TakeLight(i: nat, j: nat, limit: nat)
      requires Valid() && inserted && i == |upper| < columns && limit == lightEnd
      requires i <= j < limit && ge[pivots[j]][i] && ZeroAt(M(), pivots, i, i, j)
      modifies this`ge, this`heavy, this`upper, this`pivots
      ensures Valid() && |upper| == i + 1
    {
      hide Sound, NoneIn, HasAll, HasFrom, ZeroAt, ByteRowsLast;
      ByteRowsLastLight(pivots, i, j, limit, lightRows);
      ZeroSwap(M(), pivots, i, i, j);
      SwapUnused(i, j);
      ClearBelowLight(i, j, limit);
    }

    /** Use the byte row found at position j as the pivot of heavy column i. A light row that
        loses its place by that goes to the end of the light rows. */
    method TakeHeavy(i: nat, j: nat, firstIn: nat) returns (first: nat)
      requires Valid() && inserted && i == |upper| < columns && firstIn == lightEnd
      requires i <= j && firstIn <= j < |pivots| && ZeroAt(M(), pivots, i, i, j)
      requires lightRows <= pivots[j] && heavy[pivots[j] - lightRows][i - firstHeavyColumn] != ZERO
      requires forall p :: j < p < |pivots| ==> lightRows <= pivots[p]
      modifies this`heavy, this`upper, this`pivots, this`lightEnd
      ensures Valid() && |upper| == i + 1 && first == lightEnd
    {
      hide Sound, NoneIn, HasAll, HasFrom, ZeroAt, ByteRowsLast;
      first := firstIn;
      ByteRowsLastHeavy(pivots, i, j, first, lightRows);
      ZeroSwap(M(), pivots, i, i, j);
      SwapUnused(i, j);
      if i < first {
        ZeroSwapInside(M(), pivots, i, i + 1, j + 1, first, j);
        SwapUnused(first, j);
        first := first + 1;
        lightEnd := first;
      }
      ClearBelowHeavy(i, j);
    }

    /** Find a pivot for column i, light rows first, and clear the column below it. */
    method PlacePivot(i: nat, firstIn: nat) returns (found: bool, first: nat)
      requires Valid() && inserted && i == |upper| < columns && firstIn == lightEnd
      modifies this`ge, this`heavy, this`upper, this`pivots, this`lightEnd
      ensures Valid() && first == lightEnd
      ensures if found then |upper| == i + 1 else |upper| == i && ZeroAt(M(), pivots, i, i, |pivots|)
    {
      hide Sound, NoneIn, HasAll, HasFrom, ZeroAt;
      SoundBounds(M(), pivots, orig, upper);
      first := firstIn;
      var from := i;
      if i < first {
        from := SearchLight(i, i, first);
        if from < first {
          TakeLight(i, from, first);
          return true, first;
        }
      }
      var j := SearchHeavy(i, from);
      ZeroJoin(M(), pivots, i, i, from, j);
      if j == |pivots| {
        return false, first;
      }
      first := TakeHeavy(i, j, first);
      return true, first;
    }

    /** Triangulate the remaining columns, the heavy ones included. */
    method Triangle() returns (ok: bool)
      requires Searching()
      modifies this`ge, this`heavy, this`pivots, this`upper, this`nextPivot, this`firstHeavyPivot, this`inserted,
        this`lightEnd, this`heavyListed
      ensures if ok then Complete() else Stuck()
    {
      hide Sound, NoneIn, HasAll, HasFrom, ZeroAt;
      if nextPivot < firstHeavyColumn {
        var started := TriangleNonHeavy();
        if !started {
          return false;
        }
      }
      var first := firstHeavyPivot;
      var i := nextPivot;
      while i < columns
        invariant Valid() && inserted && i == |upper| <= columns && first == lightEnd
      {
        var found;
        found, first := PlacePivot(i, first);
        if !found {
          nextPivot := i;
          firstHeavyPivot := first;
          return false;
        }
        i := i + 1;
      }
      return true;
    }

    method ListLightRows()
      modifies this`pivots
      ensures |pivots| == lightRows && forall p :: 0 <= p < lightRows ==> pivots[p] == p
    {
      pivots := [];
      var i := 0;
      while i < lightRows
        invariant 0 <= i <= lightRows && |pivots| == i && forall p :: 0 <= p < i ==> pivots[p] == p
      {
        pivots := pivots + [i];
        i := i + 1;
      }
    }

    /** List the light rows in order and start the search at the first column. */
    method SetupTriangle()
      requires M().Shaped() && !inserted && heavyColumns == columns - firstHeavyColumn
      modifies this`pivots, this`nextPivot, this`heavy, this`firstHeavyPivot, this`inserted, this`orig, this`upper,
        this`lightEnd, this`extraUsed, this`heavyListed
      ensures Searching() && extraUsed == 0 && orig == AllRows(old(M()))
    {
      hide Sound, NoneIn, HasAll, HasFrom, BitsRow, HeavyRow, MixedRow;
      ListLightRows();
      nextPivot := 0;
      upper, extraUsed, heavyListed := [], 0, 0;
      HasFromNone(pivots, lightRows + extraRows);
      assert NoneIn(pivots, lightRows, lightRows + extraRows) by {
        NoneInStart(pivots, lightRows, lightRows + extraRows); }
      HasAllStart(pivots, lightRows);
      orig := AllRows(M());
      SoundInit(M(), pivots, orig);
      if firstHeavyColumn <= 0 {
        InsertHeavyRows();
      }
    }

    /** gi is an extra row that is not yet listed, or listed and unused at position slot. */
    ghost predicate Spare(slot: nat, gi: nat)
      reads this
    {
      && lightRows <= gi < lightRows + extraRows
      && if slot < |pivots| then |upper| <= slot && pivots[slot] == gi
         else slot == |pivots| && gi == lightRows + extraUsed
    }

    lemma SpareUnused(slot: nat, gi: nat)
      requires Valid() && Spare(slot, gi)
      ensures forall j :: 0 <= j < |upper| && j < |pivots| ==> pivots[j] != gi
      ensures slot == |pivots| ==> gi !in pivots
    {
      hide Sound;
    }

    /** Eliminate the pivots before the heavy columns from the new row gi. */
    method FoldLight(slot: nat, gi: nat, bits: Bits)
      requires Stuck() && Spare(slot, gi) && |bits| == columns
      modifies this`ge
      ensures |ge| == old(|ge|) && ge == old(ge)[gi := ge[gi]] && |ge[gi]| == columns
      ensures var j := Min(nextPivot, firstHeavyColumn); LuRow(BitsRow(bits), BitsRow(ge[gi]), upper[..j], j)
    {
      hide Sound, NoneIn, HasAll, HasFrom, LuRow, LuSum, Eliminated, AddAbove, BitsRow, ZeroAt, HeavyLast;
      ghost var m := M();
      SoundBounds(m, pivots, orig, upper);
      SpareUnused(slot, gi);
      ge := ge[gi := bits];
      LuStart(BitsRow(bits), [], 0);
      var j := 0;
      while j < nextPivot && j < firstHeavyColumn
        invariant 0 <= j <= nextPivot && j <= firstHeavyColumn
        invariant |ge| == |m.ge| && ge == m.ge[gi := ge[gi]] && |ge[gi]| == columns
        invariant LuRow(BitsRow(bits), BitsRow(ge[gi]), upper[..j], j)
      {
        LightPivotRow(m, pivots, orig, upper, j);
        ClearLightEliminates(ge[gi], ge[pivots[j]], j);
        LuStepAt(BitsRow(bits), BitsRow(ge[gi]), BitsRow(ClearLight(ge[gi], ge[pivots[j]], j)), upper, j);
        if ge[gi][j] {
          ge := ge[gi := AddAbove(ge[gi], ge[pivots[j]], j)];
        }
        j := j + 1;
      }
    }

    /** Give the new row gi its bytes and eliminate the pivots of the heavy columns from it. */
    method FoldHeavy(slot: nat, gi: nat, ghost m: Matrix, ghost o: Vec)
      requires Ready() && m.Shaped() && m.Lists(pivots) && Sound(m, pivots, orig, upper)
      requires m.heavyIn && M() == m.(ge := ge) && OnlyRow(m, M(), gi)
      requires forall j :: 0 <= j < |upper| && j < |pivots| ==> pivots[j] != gi
      requires firstHeavyColumn <= nextPivot == |upper| <= columns
      requires LuRow(o, BitsRow(ge[gi]), upper[..firstHeavyColumn], firstHeavyColumn)
      modifies this`heavy
      ensures Ready() && OnlyRow(m, M(), gi)
      ensures LuRow(o, M().Row(gi), upper, |upper|)
    {
      hide Sound, NoneIn, HasAll, HasFrom, LuRow, LuSum, Eliminated, AddBits, AddBytes, BitsRow, MixedRow, HeavyRow,
        ToBytes;
      SoundBounds(m, pivots, orig, upper);
      var r := gi - lightRows;
      heavy := heavy[r := ToBytes(ge[gi], firstHeavyColumn)];
      ToBytesMixes(ge[gi], firstHeavyColumn);
      var j := firstHeavyColumn;
      while j < nextPivot
        invariant firstHeavyColumn <= j <= nextPivot
        invariant |heavy| == |m.heavy| && heavy == m.heavy[r := heavy[r]] && |heavy[r]| == heavyColumns
        invariant LuRow(o, MixedRow(ge[gi], heavy[r], firstHeavyColumn), upper[..j], j)
      {
        FoldOne(gi, m, o, j);
        j := j + 1;
      }
      assert upper[..j] == upper;
    }

    method FoldOne(gi: nat, ghost m: Matrix, ghost o: Vec, j: nat)
      requires Ready() && m.Shaped() && m.Lists(pivots) && Sound(m, pivots, orig, upper)
      requires m.heavyIn && M() == m.(ge := ge, heavy := heavy) && OnlyRow(m, M(), gi)
      requires firstHeavyColumn <= j < |upper| <= columns && j < |pivots| && pivots[j] != gi
      requires LuRow(o, MixedRow(ge[gi], heavy[gi - lightRows], firstHeavyColumn), upper[..j], j)
      modifies this`heavy
      ensures Ready() && OnlyRow(m, M(), gi)
      ensures |heavy| == old(|heavy|) && heavy == old(heavy)[gi - lightRows := heavy[gi - lightRows]]
      ensures LuRow(o, MixedRow(ge[gi], heavy[gi - lightRows], firstHeavyColumn), upper[..j + 1], j + 1)
    {
      hide Sound, NoneIn, HasAll, HasFrom, LuRow, LuSum, Eliminated, AddBits, AddBytes, BitsRow, MixedRow, HeavyRow;
      HeavyPivotRow(m, pivots, orig, upper, j);
      var r := gi - lightRows;
      var p := pivots[j];
      ghost var row := MixedRow(ge[gi], heavy[r], firstHeavyColumn);
      if lightRows <= p {
        FoldByHeavy(gi, p, j - firstHeavyColumn, upper[j]);
      } else {
        FoldByLight(gi, p, j - firstHeavyColumn);
      }
      LuStepAt(o, row, MixedRow(ge[gi], heavy[r], firstHeavyColumn), upper, j);
    }

    /** Use byte row p on heavy column k of row gi, without a division when its entry is one. */
    method FoldByHeavy(gi: nat, p: nat, k: nat, ghost piv: Vec)
      requires M().Shaped() && heavyColumns == columns - firstHeavyColumn && lightRows <= gi < lightRows + extraRows
      requires lightRows <= p < M().RowCount() && p != gi && k < heavyColumns
      requires Holds(piv, heavy[p - lightRows], firstHeavyColumn) && heavy[p - lightRows][k] != ZERO
      modifies this`heavy
      ensures |heavy| == old(|heavy|) && heavy == old(heavy)[gi - lightRows := heavy[gi - lightRows]]
      ensures |heavy[gi - lightRows]| == heavyColumns
      ensures Eliminated(MixedRow(ge[gi], old(heavy)[gi - lightRows], firstHeavyColumn), piv,
        MixedRow(ge[gi], heavy[gi - lightRows], firstHeavyColumn), firstHeavyColumn + k)
    {
      hide Eliminated, AddBytes, MixedRow, Div;
      var r := gi - lightRows;
      var pivotRow := heavy[p - lightRows];
      ghost var bytes := heavy[r];
      var code := heavy[r][k];
      DivOne(code);
      if code != ZERO {
        var eliminator := if pivotRow[k] == ONE then code else Div(code, pivotRow[k]);
        heavy := heavy[r := AddBytes(heavy[r], pivotRow, k, eliminator)];
      }
      assert heavy[r] == ClearByHeavy(bytes, pivotRow, k);
      MixedHolds(ge[gi], bytes, firstHeavyColumn);
      MixedHolds(ge[gi], heavy[r], firstHeavyColumn);
      MixedPrefix(ge[gi], bytes, heavy[r], firstHeavyColumn);
      ClearByHeavyEliminates(MixedRow(ge[gi], bytes, firstHeavyColumn), MixedRow(ge[gi], heavy[r], firstHeavyColumn),
        bytes, piv, pivotRow, firstHeavyColumn, k);
    }

    /** Use bit row p on heavy column k of row gi. */
    method FoldByLight(gi: nat, p: nat, k: nat)
      requires M().Shaped() && heavyColumns == columns - firstHeavyColumn && lightRows <= gi < lightRows + extraRows
      requires p < lightRows && k < heavyColumns && ge[p][firstHeavyColumn + k]
      modifies this`heavy
      ensures |heavy| == old(|heavy|) && heavy == old(heavy)[gi - lightRows := heavy[gi - lightRows]]
      ensures |heavy[gi - lightRows]| == heavyColumns
      ensures Eliminated(MixedRow(ge[gi], old(heavy)[gi - lightRows], firstHeavyColumn), BitsRow(ge[p]),
        MixedRow(ge[gi], heavy[gi - lightRows], firstHeavyColumn), firstHeavyColumn + k)
    {
      hide Eliminated, AddBits, MixedRow, BitsRow;
      var r := gi - lightRows;
      ghost var bytes := heavy[r];
      var code := heavy[r][k];
      if code != ZERO {
        heavy := heavy[r := AddBits(heavy[r], ge[p], firstHeavyColumn, k, code)];
      }
      assert heavy[r] == ClearByLight(bytes, ge[p], firstHeavyColumn, k);
      MixedHolds(ge[gi], bytes, firstHeavyColumn);
      MixedHolds(ge[gi], heavy[r], firstHeavyColumn);
      MixedPrefix(ge[gi], bytes, heavy[r], firstHeavyColumn);
      ClearByLightEliminates(MixedRow(ge[gi], bytes, firstHeavyColumn), MixedRow(ge[gi], heavy[r], firstHeavyColumn),
        bytes, ge[p], firstHeavyColumn, k);
    }

    /** Put the new row, now reduced, on the list. */
    method Enlist(slot: nat, gi: nat, ghost m: Matrix, ghost o: Vec)
      requires Ready() && Spare(slot, gi) && |o| == columns
      requires m.Shaped() && m.Lists(pivots) && Sound(m, pivots, orig, upper) && OnlyRow(m, M(), gi)
      requires LuRow(o, M().Row(gi), upper, |upper|)
      requires inserted ==> HeavyLast()
      requires |upper| < columns && ZeroAt(m, pivots, |upper|, |upper|, |pivots|)
      modifies this`pivots, this`orig, this`extraUsed
      ensures Valid() && slot < |pivots| && pivots[slot] == gi && |upper| <= slot
      ensures orig == old(orig)[gi := o]
      ensures extraUsed == old(extraUsed) + (if slot == old(|pivots|) then 1 else 0)
      ensures ZeroAt(M(), pivots, |upper|, |upper|, slot) && ZeroAt(M(), pivots, |upper|, slot + 1, |pivots|)
    {
      hide Sound, NoneIn, HasAll, HasFrom, LuRow, LuSum, BitsRow, MixedRow, HeavyRow, ZeroAt;
      SoundBounds(m, pivots, orig, upper);
      if slot == |pivots| {
        NoneInGrow(pivots, lightRows + extraUsed, lightRows + extraRows);
        HasAllAppend(pivots, lightRows + extraUsed, gi);
        HasFromAppend(pivots, lightRows + extraRows, heavyListed, gi);
        NoneInFirst(pivots, lightRows + extraUsed, lightRows + extraRows);
        SoundAppend(m, M(), pivots, orig, upper, gi, o);
        OthersZeroAppend(m, M(), pivots, |upper|, gi);
        pivots := pivots + [gi];
        extraUsed := extraUsed + 1;
      } else {
        SoundReplace(m, M(), pivots, orig, upper, gi, o, slot);
        OthersZero(m, M(), pivots, |upper|, gi, slot);
      }
      orig := orig[gi := o];
    }

    /** Move the new row from position slot to position nextPivot. */
    method PlaceNew(slot: nat)
      requires Searching() && |upper| < columns && |upper| <= slot < |pivots| && lightRows <= pivots[slot]
      requires ZeroAt(M(), pivots, |upper|, |upper|, slot) && ZeroAt(M(), pivots, |upper|, slot + 1, |pivots|)
      modifies this`pivots, this`firstHeavyPivot, this`lightEnd
      ensures Ready() && Sound(M(), pivots, orig, upper) && |upper| < |pivots|
      ensures pivots[|upper|] == old(pivots)[slot] && ZeroAt(M(), pivots, |upper|, |upper| + 1, |pivots|)
      ensures inserted ==> firstHeavyPivot == lightEnd && ByteRowsLast(pivots, |upper| + 1, lightEnd, lightRows)
    {
      hide Sound, NoneIn, HasAll, HasFrom, BitsRow, MixedRow, HeavyRow, ZeroAt, ByteRowsLast;
      var i := nextPivot;
      ZeroSwapOut(M(), pivots, i, slot);
      if firstHeavyColumn <= i {
        ByteRowsLastHeavy(pivots, i, slot, firstHeavyPivot, lightRows);
      }
      SwapUnused(i, slot);
      if firstHeavyColumn <= i && i < firstHeavyPivot {
        ZeroSwapInside(M(), pivots, i, i + 1, |pivots|, firstHeavyPivot, slot);
        SwapUnused(firstHeavyPivot, slot);
        firstHeavyPivot := firstHeavyPivot + 1;
        lightEnd := firstHeavyPivot;
      }
    }

    /** Take the new row at position slot as the next pivot; no other row has the column. */
    method TakeNew(slot: nat)
      requires Searching() && |upper| < columns && |upper| <= slot < |pivots|
      requires lightRows <= pivots[slot] && M().Row(pivots[slot])[|upper|] != ZERO
      requires ZeroAt(M(), pivots, |upper|, |upper|, slot) && ZeroAt(M(), pivots, |upper|, slot + 1, |pivots|)
      modifies this`heavy, this`pivots, this`upper, this`nextPivot, this`firstHeavyPivot, this`inserted, this`lightEnd,
        this`heavyListed
      ensures Searching()
    {
      hide Sound, NoneIn, HasAll, HasFrom, BitsRow, MixedRow, HeavyRow, ZeroAt, ByteRowsLast;
      PlaceNew(slot);
      var i := nextPivot;
      ZeroAbove(M(), pivots, i);
      SoundTake(M(), pivots, orig, upper);
      upper := upper + [M().Row(pivots[i])];
      nextPivot := i + 1;
      if nextPivot == firstHeavyColumn {
        InsertHeavyRows();
      }
    }

    /** Does the reduced row gi have an entry in column nextPivot? */
    method HasNext(gi: nat) returns (usable: bool)
      requires Ready() && lightRows <= gi < lightRows + extraRows && nextPivot < columns
      requires inserted <==> firstHeavyColumn <= nextPivot
      ensures usable <==> M().Row(gi)[nextPivot] != ZERO
    {
      hide NoneIn, HasAll, HasFrom, BitsRow, MixedRow, HeavyRow;
      if nextPivot < firstHeavyColumn {
        usable := ge[gi][nextPivot];
        BitSet(ge[gi], nextPivot);
      } else {
        usable := heavy[gi - lightRows][nextPivot - firstHeavyColumn] != ZERO;
        MixedHolds(ge[gi], heavy[gi - lightRows], firstHeavyColumn);
      }
    }

    /** Reduce a new row by the pivots already chosen and list it. */
    method Reduce(slot: nat, gi: nat, bits: Bits)
      requires Stuck() && Spare(slot, gi) && |bits| == columns
      modifies this`ge, this`heavy, this`pivots, this`orig, this`extraUsed
      ensures Searching() && slot < |pivots| && pivots[slot] == gi && |upper| <= slot
      ensures orig == old(orig)[gi := BitsRow(bits)]
      ensures extraUsed == old(extraUsed) + (if slot == old(|pivots|) then 1 else 0)
      ensures ZeroAt(M(), pivots, |upper|, |upper|, slot) && ZeroAt(M(), pivots, |upper|, slot + 1, |pivots|)
    {
      hide Sound, NoneIn, HasAll, HasFrom, ZeroAt, LuRow, LuSum, BitsRow, MixedRow, HeavyRow;
      ghost var m, o := M(), BitsRow(bits);
      SoundBounds(m, pivots, orig, upper);
      SpareUnused(slot, gi);
      FoldLight(slot, gi, bits);
      if firstHeavyColumn <= nextPivot {
        FoldHeavy(slot, gi, m, o);
      } else {
        assert upper[..nextPivot] == upper;
      }
      Enlist(slot, gi, m, o);
    }

    /** Solve on with one more row: reduce it by the pivots already chosen and, if it can serve
        as the missing pivot, continue the search from there. */
    method Resume(slot: nat, gi: nat, bits: Bits) returns (ok: bool)
      requires Stuck() && Spare(slot, gi) && |bits| == columns
      modifies this`ge, this`heavy, this`pivots, this`upper, this`nextPivot, this`firstHeavyPivot,
        this`inserted, this`lightEnd, this`heavyListed, this`orig, this`extraUsed
      ensures if ok then Complete() else Stuck()
      ensures orig == old(orig)[gi := BitsRow(bits)]
      ensures extraUsed == old(extraUsed) + (if slot == old(|pivots|) then 1 else 0)
    {
      hide Sound, NoneIn, HasAll, HasFrom, ZeroAt, BitsRow, MixedRow, HeavyRow;
      Reduce(slot, gi, bits);
      var usable := HasNext(gi);
      if !usable {
        ZeroJoinAt(M(), pivots, nextPivot, slot);
        return false;
      }
      TakeNew(slot);
      ok := Triangle();
    }
  }
}

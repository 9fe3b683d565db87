/** Stage 4: the values of the GE columns by forward and back substitution, with windows of a few
    columns at a time where there are enough of them, and the peeled columns from those. */
module Substitution {
  import opened GF256
  import opened Linear
  import opened Progress
  import opened Elimination
  import opened Triangular
  import opened Rows
  import opened PeelState
  import opened Equations
  import opened Skipping
  import opened Spans
  import opened Windows

  class Generator {
    const system: System
    const n: nat
    const deferCount: nat
    const denseCount: nat
    const extraCount: nat
    const columns: nat
    const firstHeavy: nat
    const columnMarks: seq<Mark>
    const geColMap: seq<nat>
    const pivots: seq<nat>
    const ge: seq<Bits>
    const heavy: seq<Vec>
    ghost const up: seq<Vec>

    var recovery: Vec

    constructor (system: System, deferCount: nat, extraCount: nat, columns: nat, firstHeavy: nat,
      columnMarks: seq<Mark>,
      geColMap: seq<nat>, pivots: seq<nat>, ge: seq<Bits>, heavy: seq<Vec>, ghost up: seq<Vec>, recovery: Vec)
      ensures this.system == system && n == system.code.n && denseCount == system.dense
      ensures this.deferCount == deferCount && this.extraCount == extraCount && this.columns == columns
        && this.firstHeavy == firstHeavy
      ensures this.columnMarks == columnMarks && this.geColMap == geColMap && this.pivots == pivots
      ensures this.ge == ge && this.heavy == heavy && this.up == up && this.recovery == recovery
    {
      this.system, n, denseCount := system, system.code.n, system.dense;
      this.deferCount, this.extraCount, this.columns, this.firstHeavy := deferCount, extraCount, columns, firstHeavy;
      this.columnMarks, this.geColMap, this.pivots := columnMarks, geColMap, pivots;
      this.ge, this.heavy, this.up, this.recovery := ge, heavy, up, recovery;
    }

    ghost function M(): Matrix {
      Matrix(columns, LightRows(), extraCount, firstHeavy, ge, heavy, true)
    }

    function LightRows(): nat { deferCount + denseCount }

    /** The elimination is complete: up holds the upper rows with the multipliers left of them. */
    ghost predicate Eliminated() {
      && M().Shaped() && M().Lists(pivots) && columns <= |pivots|
      && firstHeavy <= columns <= firstHeavy + HEAVY_COLUMNS && Square(up, columns)
      && (forall i :: 0 <= i < columns ==> up[i] == M().Row(pivots[i]) && up[i][i] != ZERO)
      && UsedAgree(M(), pivots, columns)
    }

    /** Each GE column has a cell of its own among the recovery blocks, no peeled column among them. */
    ghost predicate Mapped() {
      && |columnMarks| == n && |geColMap| == columns && NoRepeat(geColMap)
      && (forall k :: 0 <= k < columns ==> geColMap[k] < n + system.Mix())
      && (forall k :: 0 <= k < columns && geColMap[k] < n ==> !columnMarks[geColMap[k]].Peel?)
    }

    ghost predicate Sized()
      reads this
    {
      |recovery| == n + system.Mix() + 1
    }

    /** The values of the GE columns in pivot order. */
    ghost function Vals(): (v: Vec)
      requires Mapped() && Sized()
      reads this
      ensures |v| == columns
    {
      ValsOf(geColMap, recovery)
    }

    // ---------- Reading the matrix ----------

    ghost predicate ByBit(i: nat, j: nat)
      requires i < |pivots|
    {
      pivots[i] < LightRows() || (pivots[i] < LightRows() + extraCount && (j < firstHeavy || i < firstHeavy))
    }

    lemma BitAt(i: nat, j: nat)
      requires Eliminated() && i < columns && j < columns && ByBit(i, j)
      ensures pivots[i] < |ge| && |ge[pivots[i]]| == columns
      ensures up[i][j] == If(ge[pivots[i]][j], ONE)
    {}

    lemma ByteAt(i: nat, j: nat)
      requires Eliminated() && i < columns && firstHeavy <= j < columns && LightRows() <= pivots[i]
      ensures pivots[i] - LightRows() < |heavy| && j - firstHeavy < |heavy[pivots[i] - LightRows()]|
      ensures up[i][j] == heavy[pivots[i] - LightRows()][j - firstHeavy]
    {}

    lemma NothingAt(i: nat, j: nat)
      requires Eliminated() && i < columns && j < firstHeavy && LightRows() + extraCount <= pivots[i]
      ensures up[i][j] == ZERO
    {}

    lemma EarlyBits(i: nat)
      requires Eliminated() && i < columns
      ensures i < |pivots| && (i < firstHeavy ==> pivots[i] < LightRows() + extraCount)
    {}

    lemma Bounds()
      requires Eliminated()
      ensures columns <= |pivots|
      ensures firstHeavy <= columns <= firstHeavy + HEAVY_COLUMNS && Square(up, columns)
    {}

    // ---------- Adding stretches of a row ----------

    /** Add a times column j to column i. */
    method AddTo(i: nat, a: Byte, j: nat)
      requires Mapped() && Sized() && i < columns && j < columns
      modifies this
      ensures Sized() && KeptBut(geColMap, old(recovery), recovery)
      ensures Vals() == old(Vals())[i := Add(old(Vals())[i], Mul(a, old(Vals())[j]))]
    {
      hide Add, Mul;
      CellSet(geColMap, recovery, i, Add(recovery[geColMap[i]], Mul(a, recovery[geColMap[j]])));
      recovery := recovery[geColMap[i] := Add(recovery[geColMap[i]], Mul(a, recovery[geColMap[j]]))];
    }

    /** Add the columns lo .. hi - 1 of byte row i to its value. */
    method AddBytes(i: nat, lo: nat, hi: nat)
      requires Eliminated() && Mapped() && Sized() && i < columns && LightRows() <= pivots[i]
      requires firstHeavy <= lo <= hi <= columns && (i < lo || hi <= i)
      modifies this
      ensures Sized() && KeptBut(geColMap, old(recovery), recovery)
      ensures |up| > i && |up[i]| == columns
      ensures Vals() == old(Vals())[i := Add(old(Vals())[i], Span(up[i], old(Vals()), lo, hi))]
    {
      hide Eliminated, Add, Mul, ValsOf;
      ghost var v := Vals();
      RowLength(i);
      SpanEmpty(up[i], v, lo);
      AddZero(v[i]);
      var j := lo;
      while j < hi
        invariant lo <= j <= hi && Sized() && KeptBut(geColMap, old(recovery), recovery)
        invariant Vals() == v[i := Add(v[i], Span(up[i], v, lo, j))]
      {
        ByteAt(i, j);
        var code := heavy[pivots[i] - LightRows()][j - firstHeavy];
        AddAssoc(v[i], Span(up[i], v, lo, j), Mul(up[i][j], v[j]));
        if code != ZERO {
          AddTo(i, code, j);
        } else {
          MulZero(v[j]);
          AddZero(Add(v[i], Span(up[i], v, lo, j)));
        }
        j := j + 1;
      }
    }

    /** Add the columns lo .. hi - 1 of row i, held as bits there, to its value. */
    method AddBits(i: nat, lo: nat, hi: nat)
      requires Eliminated() && Mapped() && Sized() && i < columns
      requires lo <= hi <= columns && (i < lo || hi <= i)
      requires forall j :: lo <= j < hi ==> ByBit(i, j)
      modifies this
      ensures Sized() && KeptBut(geColMap, old(recovery), recovery)
      ensures |up| > i && |up[i]| == columns
      ensures Vals() == old(Vals())[i := Add(old(Vals())[i], Span(up[i], old(Vals()), lo, hi))]
    {
      hide Eliminated, Add, Mul, ValsOf;
      ghost var v := Vals();
      RowLength(i);
      SpanEmpty(up[i], v, lo);
      AddZero(v[i]);
      var j := lo;
      while j < hi
        invariant lo <= j <= hi && Sized() && KeptBut(geColMap, old(recovery), recovery)
        invariant Vals() == v[i := Add(v[i], Span(up[i], v, lo, j))]
      {
        BitAt(i, j);
        AddAssoc(v[i], Span(up[i], v, lo, j), Mul(up[i][j], v[j]));
        if ge[pivots[i]][j] {
          AddTo(i, ONE, j);
        } else {
          MulZero(v[j]);
          AddZero(Add(v[i], Span(up[i], v, lo, j)));
        }
        j := j + 1;
      }
    }

    lemma RowLength(i: nat)
      requires Eliminated() && i < columns
      ensures i < |up| && |up[i]| == columns && i < |pivots|
    {}

    // ---------- Forward substitution ----------

    /** Entries before i are final, the others have the entries before p added. */
    ghost function Steps(i: nat, p: nat): (h: seq<nat>)
      ensures |h| == columns
    {
      seq(columns, k requires 0 <= k => if k < i then k else Min(k, p))
    }

    /** Two stretches of a row added one after the other. */
    lemma TwoSpans(i: nat, v: Vec, p: nat, q: nat)
      requires Eliminated() && |v| == columns && i < columns && p <= q <= i
      ensures i < |up| && |up[i]| == columns
      ensures var v' := v[i := Add(v[i], Span(up[i], v, q, i))];
        v'[i := Add(v'[i], Span(up[i], v', p, q))] == v[i := Add(v[i], Span(up[i], v, p, i))]
    {
      RowLength(i);
      hide Eliminated, Add, Mul;
      var v' := v[i := Add(v[i], Span(up[i], v, q, i))];
      SpanAgree(up[i], up[i], v, v', p, q);
      SpanSplit(up[i], v, p, q, i);
      AddAssoc(v[i], Span(up[i], v, q, i), Span(up[i], v, p, q));
      AddComm(Span(up[i], v, q, i), Span(up[i], v, p, q));
    }

    /** Add the final entries from p on to entry i, heavy columns first. */
    method RowForward(i: nat, p: nat)
      requires Eliminated() && Mapped() && Sized() && p <= i < columns && p <= firstHeavy
      modifies this
      ensures Sized() && KeptBut(geColMap, old(recovery), recovery) && i < |up| && |up[i]| == columns
      ensures Vals() == old(Vals())[i := Add(old(Vals())[i], Span(up[i], old(Vals()), p, i))]
    {
      hide Eliminated, Add, Mul, ValsOf, Span, Mapped;
      ghost var v := Vals();
      RowLength(i);
      EarlyBits(i);
      var limit := i;
      if LightRows() <= pivots[i] {
        if firstHeavy < limit {
          AddBytes(i, firstHeavy, limit);
          TwoSpans(i, v, p, firstHeavy);
        } else {
          NothingAdded(i, v, i);
        }
        if LightRows() + extraCount <= pivots[i] {
          HeavyRest(i, v, Vals(), p);
          return;
        }
        if limit > firstHeavy {
          limit := firstHeavy;
        }
      }
      if p < limit {
        AddBits(i, p, limit);
      } else {
        SpanEmpty(up[i], v, limit);
        NothingAdded(i, Vals(), limit);
      }
    }

    lemma NothingAdded(i: nat, v: Vec, p: nat)
      requires Eliminated() && |v| == columns && i < columns && p <= columns
      ensures i < |up| && |up[i]| == columns && v[i := Add(v[i], Span(up[i], v, p, p))] == v
    {
      RowLength(i);
      SpanEmpty(up[i], v, p);
      AddZero(v[i]);
    }

    /** A heavy row has nothing before the heavy columns. */
    lemma HeavyRest(i: nat, v: Vec, v': Vec, p: nat)
      requires Eliminated() && |v| == columns && p <= firstHeavy <= i < columns && LightRows() + extraCount <= pivots[i]
      requires i < |up| && |up[i]| == columns && v' == v[i := Add(v[i], Span(up[i], v, firstHeavy, i))]
      ensures v' == v[i := Add(v[i], Span(up[i], v, p, i))]
    {
      hide Add, Mul;
      forall j | p <= j < firstHeavy ensures up[i][j] == ZERO { NothingAt(i, j); }
      SpanZero(up[i], v, p, firstHeavy);
      SpanSplit(up[i], v, p, firstHeavy, i);
      AddZero(Span(up[i], v, firstHeavy, i));
    }

    /** The rows behind position p, one after the other. */
    method ForwardRows(p: nat, ghost b: Vec)
      requires Eliminated() && Mapped() && Sized() && p <= firstHeavy && p < columns
      requires Forward(up, b, Vals(), Steps(p, p), columns)
      modifies this
      ensures Sized() && KeptBut(geColMap, old(recovery), recovery)
      ensures ForwardDone(up, b, Vals(), columns)
    {
      hide Eliminated, Add, Mul, ValsOf, Span, Forward, Mapped;
      assert Steps(p, p) == Steps(p + 1, p);
      var i := p + 1;
      while i < columns
        invariant p < i <= columns && Sized() && KeptBut(geColMap, old(recovery), recovery)
        invariant Forward(up, b, Vals(), Steps(i, p), columns)
      {
        ghost var v, h := Vals(), Steps(i, p);
        RowLength(i);
        RowForward(i, p);
        ForwardStep(up, b, v, h, columns, i, i);
        assert Steps(i + 1, p) == h[i := i];
        i := i + 1;
      }
      ForwardAll(up, b, Vals(), Steps(i, p), columns);
    }

    // ---------- The window table ----------

    ghost predicate TableCells(table: seq<nat>, size: nat) {
      && SpareCells(geColMap, table, size)
      && (forall m :: 1 <= m < size ==> table[m] < n + system.Mix())
    }

    /** The first peeled columns serve as cells of the table; their blocks are not needed any more. */
    method PickSpares(size: nat) returns (ok: bool, table: seq<nat>)
      requires Mapped() && 1 < size <= TABLE
      ensures ok <==> PeeledCount(columnMarks) + 1 >= size
      ensures ok ==> TableCells(table, size)
    {
      table := seq(TABLE, _ => 0);
      var jj := 1;
      var column := 0;
      while column < n
        invariant 0 <= column <= n && 1 <= jj < size && |table| == TABLE && jj == PeeledCount(columnMarks[..column]) + 1
        invariant forall m :: 1 <= m < jj ==> table[m] < column && columnMarks[table[m]].Peel?
        invariant forall l, m :: 1 <= l < m < jj ==> table[l] != table[m]
      {
        PeeledNext(columnMarks, column);
        if columnMarks[column].Peel? {
          table := table[jj := column];
          jj := jj + 1;
          if jj >= size {
            forall m | 1 <= m < size ensures table[m] !in geColMap { PeelIsSpare(table[m]); }
            PeeledGrows(columnMarks, column + 1);
            return true, table;
          }
        }
        column := column + 1;
      }
      assert columnMarks[..n] == columnMarks;
      return false, table;
    }

    lemma PeelIsSpare(c: nat)
      requires Mapped() && c < n && columnMarks[c].Peel?
      ensures c !in geColMap
    {}

    /** Entry m of the table is written to its cell. */
    method PutEntry(table: seq<nat>, k: nat, w: nat, m: nat, a: Byte, ghost size: nat)
      requires Mapped() && Sized() && k + w <= columns && TableCells(table, size) && 1 <= m < size && !IsPower(m)
      requires Filled(geColMap, recovery, table, k, w, m) && a == Selected(Vals(), k, m, w)
      modifies this
      ensures Sized() && Vals() == old(Vals()) && Filled(geColMap, recovery, table, k, w, m + 1)
    {
      hide Selected, SpareCells, Filled, ValsOf;
      TableLength(table, size);
      FillSpare(geColMap, recovery, table, k, w, m, size, a);
      recovery := recovery[table[m] := a];
    }

    /** Column k + t becomes entry 2^t. */
    method PutColumn(table: seq<nat>, k: nat, w: nat, t: nat, ghost size: nat) returns (r: seq<nat>)
      requires Mapped() && Sized() && k + w <= columns && TableCells(table, size) && t < w <= 7
      requires Filled(geColMap, recovery, table, k, w, Pow2(t))
      ensures TableCells(r, size) && Filled(geColMap, recovery, r, k, w, Pow2(t) + 1)
    {
      hide Selected, SpareCells, Filled, ValsOf;
      FillPower(geColMap, recovery, table, k, w, t, size);
      TableLength(table, size);
      r := table[Pow2(t) := geColMap[k + t]];
    }

    lemma TableLength(table: seq<nat>, size: nat)
      requires SpareCells(geColMap, table, size)
      ensures |table| == TABLE && size <= TABLE
    {}

    /** The value of entry m. */
    lemma EntryIs(table: seq<nat>, k: nat, w: nat, m: nat, l: nat)
      requires Mapped() && Sized() && k + w <= columns && Filled(geColMap, recovery, table, k, w, m) && 1 <= l < m
      ensures l < |table| && table[l] < |recovery| && recovery[table[l]] == Selected(Vals(), k, l, w)
    {}

    /** Entries 2^t + 1 .. 2^(t + 1) - 1: those below 2^t with column k + t added. */
    method FillAbove(table: seq<nat>, k: nat, w: nat, t: nat, ghost size: nat)
      requires Mapped() && Sized() && k + w <= columns && TableCells(table, size) && t < w <= 7 && Pow2(t + 1) <= size
      requires Filled(geColMap, recovery, table, k, w, Pow2(t) + 1)
      modifies this
      ensures Sized() && Vals() == old(Vals()) && Filled(geColMap, recovery, table, k, w, Pow2(t + 1))
    {
      hide Selected, SpareCells, Filled, ValsOf, Pow2, Add, IsPower;
      var top := Pow2(t);
      assert Pow2(t + 1) == top + top by { PowNext(t); }
      var i := 1;
      while i < top
        invariant 1 <= i <= top && Sized() && Vals() == old(Vals())
        invariant Filled(geColMap, recovery, table, k, w, top + i)
      {
        EntryIs(table, k, w, top + i, i);
        EntryIs(table, k, w, top + i, top);
        SelectedTop(Vals(), k, i, t, w);
        NoPowerBetween(t, i);
        PutEntry(table, k, w, top + i, Add(recovery[table[i]], recovery[table[top]]), size);
        i := i + 1;
      }
    }

    lemma PowNext(t: nat)
      ensures Pow2(t + 1) == Pow2(t) + Pow2(t)
    {}

    lemma NoPowerBetween(t: nat, i: nat)
      requires t < 7 && 1 <= i < Pow2(t)
      ensures !IsPower(Pow2(t) + i)
    {
      PowerTable();
      assert t == 0 || t == 1 || t == 2 || t == 3 || t == 4 || t == 5 || t == 6;
    }

    /** All sums of the columns k .. k + w - 1. */
    method BuildTable(table: seq<nat>, k: nat, w: nat) returns (r: seq<nat>)
      requires Mapped() && Sized() && 4 <= w <= 7 && k + w <= columns && TableCells(table, Pow2(w))
      modifies this
      ensures Sized() && Vals() == old(Vals())
      ensures TableCells(r, Pow2(w)) && Filled(geColMap, recovery, r, k, w, Pow2(w))
    {
      hide Selected, SpareCells, Filled, ValsOf, Pow2, Add;
      ghost var size := Pow2(w);
      PowerTable();
      PowGrows(4, w);
      NothingFilled(table, k, w, size);
      r := PutColumn(table, k, w, 0, size);
      r := PutColumn(r, k, w, 1, size);
      FillAbove(r, k, w, 1, size);
      r := PutColumn(r, k, w, 2, size);
      r := Fill567(r, k, w, size);
      var t := 3;
      while t < w
        invariant 3 <= t <= w && Sized() && Vals() == old(Vals())
        invariant TableCells(r, size) && Filled(geColMap, recovery, r, k, w, Pow2(t))
      {
        PowGrows(t + 1, w);
        r := PutColumn(r, k, w, t, size);
        FillAbove(r, k, w, t, size);
        t := t + 1;
      }
    }

    lemma NothingFilled(table: seq<nat>, k: nat, w: nat, size: nat)
      requires Mapped() && Sized() && k + w <= columns && SpareCells(geColMap, table, size)
      ensures Filled(geColMap, recovery, table, k, w, 1)
    {}

    /** Entries five to seven, the last as entry one plus entry six. */
    method Fill567(table: seq<nat>, k: nat, w: nat, ghost size: nat) returns (r: seq<nat>)
      requires Mapped() && Sized() && k + w <= columns && TableCells(table, size) && 3 <= w <= 7 && 8 <= size
      requires Filled(geColMap, recovery, table, k, w, 5)
      modifies this
      ensures Sized() && Vals() == old(Vals()) && r == table && Filled(geColMap, recovery, table, k, w, 8)
    {
      hide Selected, SpareCells, Filled, ValsOf, Pow2, Add;
      r := table;
      PowerTable();
      ghost var v := Vals();
      SelectedTop(v, k, 1, 2, w);
      SelectedTop(v, k, 2, 2, w);
      SelectedSeven(v, k, w);
      EntryIs(table, k, w, 5, 1);
      EntryIs(table, k, w, 5, 4);
      PutEntry(table, k, w, 5, Add(recovery[table[1]], recovery[table[4]]), size);
      EntryIs(table, k, w, 6, 2);
      EntryIs(table, k, w, 6, 4);
      PutEntry(table, k, w, 6, Add(recovery[table[2]], recovery[table[4]]), size);
      EntryIs(table, k, w, 7, 1);
      EntryIs(table, k, w, 7, 6);
      PutEntry(table, k, w, 7, Add(recovery[table[1]], recovery[table[6]]), size);
    }

    // ---------- Forward substitution by windows ----------

    /** In the window k .. e - 1 the entries up to s are added to the later ones, and entry s to
        those before d as well. */
    ghost function WindowSteps(k: nat, e: nat, s: nat, d: nat): (h: seq<nat>)
      ensures |h| == columns
    {
      seq(columns, i requires 0 <= i => if i >= e then Min(i, k) else if s < i < d then s + 1 else Min(i, s))
    }

    /** One final entry is added to a later one, whose row has bits there. */
    method AddBit(i: nat, j: nat, ghost b: Vec, ghost h: seq<nat>)
      requires Eliminated() && Mapped() && Sized() && j < i < columns && ByBit(i, j)
      requires Forward(up, b, Vals(), h, columns) && |h| == columns && h[i] == j && h[j] == j
      modifies this
      ensures Sized() && Forward(up, b, Vals(), h[i := j + 1], columns)
    {
      hide Eliminated, Add, Mul, ValsOf, Span, Forward, Mapped, ByBit;
      ghost var v := Vals();
      AddBits(i, j, j + 1);
      ForwardStep(up, b, v, h, columns, i, j + 1);
    }

    /** The triangle within a window. */
    method ForwardTriangle(k: nat, e: nat, ghost b: Vec)
      requires Eliminated() && Mapped() && Sized() && k < e <= firstHeavy && e <= columns
      requires Forward(up, b, Vals(), Steps(k, k), columns)
      modifies this
      ensures Sized() && Forward(up, b, Vals(), Steps(e, k), columns)
    {
      hide Eliminated, Forward, Mapped, ByBit, ValsOf;
      assert Steps(k, k) == WindowSteps(k, e, k, k);
      var s := k;
      while s < e - 1
        invariant k <= s <= e - 1 && Sized()
        invariant Forward(up, b, Vals(), WindowSteps(k, e, s, s), columns)
      {
        var d := s + 1;
        assert WindowSteps(k, e, s, s) == WindowSteps(k, e, s, d);
        while d < e
          invariant s < d <= e && Sized()
          invariant Forward(up, b, Vals(), WindowSteps(k, e, s, d), columns)
        {
          BitsEarly(d, s);
          ghost var h := WindowSteps(k, e, s, d);
          AddBit(d, s, b, h);
          assert h[d := s + 1] == WindowSteps(k, e, s, d + 1);
          d := d + 1;
        }
        assert WindowSteps(k, e, s, e) == WindowSteps(k, e, s + 1, s + 1);
        s := s + 1;
      }
      assert WindowSteps(k, e, e - 1, e - 1) == Steps(e, k);
    }

    lemma BitsEarly(i: nat, j: nat)
      requires Eliminated() && i < columns && j < firstHeavy && (i < firstHeavy || pivots[i] < LightRows() + extraCount)
      ensures i < |pivots| && ByBit(i, j)
    {
      EarlyBits(i);
    }

    /** Entry i takes the whole window from the table. */
    method AddFromTable(i: nat, table: seq<nat>, k: nat, w: nat)
      requires Eliminated() && Mapped() && Sized() && k + w <= columns && i < columns && (i < k || k + w <= i)
      requires w > 0 && TableCells(table, Pow2(w)) && Filled(geColMap, recovery, table, k, w, Pow2(w))
      requires forall j :: k <= j < k + w ==> ByBit(i, j)
      modifies this
      ensures Sized() && Filled(geColMap, recovery, table, k, w, Pow2(w))
      ensures i < |up| && |up[i]| == columns
      ensures Vals() == old(Vals())[i := Add(old(Vals())[i], Span(up[i], old(Vals()), k, k + w))]
    {
      hide Eliminated, Add, Mul, Selected, Filled, Pow2, Field, Span;
      ghost var v := Vals();
      RowLength(i);
      RowBits(i, k, w);
      var bits := Field(ge[pivots[i]], k, w);
      assert bits < Pow2(w);
      SelectedField(ge[pivots[i]], up[i], v, k, w);
      if bits != 0 {
        EntryIs(table, k, w, Pow2(w), bits);
        FilledKept(geColMap, recovery, table, k, w, Pow2(w), i, Add(recovery[geColMap[i]], recovery[table[bits]]));
        TableLength(table, Pow2(w));
        CellSet(geColMap, recovery, i, Add(recovery[geColMap[i]], recovery[table[bits]]));
        recovery := recovery[geColMap[i] := Add(recovery[geColMap[i]], recovery[table[bits]])];
      } else {
        SelectedZero(v, k, w);
        AddZero(v[i]);
        assert v[i := Add(v[i], Span(up[i], v, k, k + w))] == v;
      }
    }

    lemma RowBits(i: nat, k: nat, w: nat)
      requires Eliminated() && i < columns && k + w <= columns && forall j :: k <= j < k + w ==>
        i < |pivots|
        && ByBit(i, j)
      requires w > 0
      ensures i < |pivots| && pivots[i] < |ge| && |ge[pivots[i]]| == columns && i < |up| && |up[i]| == columns
      ensures forall j :: k <= j < k + w ==> up[i][j] == If(ge[pivots[i]][j], ONE)
    {
      hide Eliminated;
      RowLength(i);
      BitAt(i, k);
      forall j | k <= j < k + w ensures up[i][j] == If(ge[pivots[i]][j], ONE) { BitAt(i, j); }
    }

    /** Rows behind the window take it from the table; heavy rows have nothing there. */
    method ForwardBelow(table: seq<nat>, k: nat, w: nat, ghost b: Vec)
      requires Eliminated() && Mapped() && Sized() && k + w <= columns && k + w <= firstHeavy && w > 0
      requires TableCells(table, Pow2(w)) && Filled(geColMap, recovery, table, k, w, Pow2(w))
      requires Forward(up, b, Vals(), Steps(k + w, k), columns)
      modifies this
      ensures Sized() && Forward(up, b, Vals(), Steps(k + w, k + w), columns)
    {
      hide Eliminated, Forward, ByBit, ValsOf, Filled, SpareCells, Pow2, Span, Add, Mul;
      ghost var e := k + w;
      var i := k + w;
      assert Steps(e, k) == TableSteps(k, e, i);
      while i < columns
        invariant e <= i <= columns && Sized()
        invariant Filled(geColMap, recovery, table, k, w, Pow2(w))
        invariant Forward(up, b, Vals(), TableSteps(k, e, i), columns)
      {
        ghost var v, h := Vals(), TableSteps(k, e, i);
        RowLength(i);
        if pivots[i] < LightRows() + extraCount {
          forall j | k <= j < e ensures ByBit(i, j) { BitsEarly(i, j); }
          AddFromTable(i, table, k, w);
        } else {
          forall j | k <= j < e ensures up[i][j] == ZERO { NothingAt(i, j); }
          SpanZero(up[i], v, k, e);
          AddZero(v[i]);
          assert v[i := Add(v[i], Span(up[i], v, k, e))] == v;
        }
        ForwardStep(up, b, v, h, columns, i, e);
        assert h[i := e] == TableSteps(k, e, i + 1);
        i := i + 1;
      }
      assert TableSteps(k, e, i) == Steps(e, e);
    }

    /** Entries before e are final, those before i have the entries before e added, the others those before k. */
    ghost function TableSteps(k: nat, e: nat, i: nat): (h: seq<nat>)
      ensures |h| == columns
    {
      seq(columns, c requires 0 <= c => if c < i then Min(c, e) else Min(c, k))
    }

    /** One window. */
    method ForwardWindow(table0: seq<nat>, k: nat, w: nat, ghost b: Vec) returns (table: seq<nat>)
      requires Eliminated() && Mapped() && Sized() && 4 <= w <= 7 && k + w <= firstHeavy && k + w <= columns
      requires TableCells(table0, Pow2(w)) && Forward(up, b, Vals(), Steps(k, k), columns)
      modifies this
      ensures Sized() && TableCells(table, Pow2(w)) && Forward(up, b, Vals(), Steps(k + w, k + w), columns)
    {
      hide Eliminated, Forward, Mapped, ValsOf, Filled, SpareCells, Pow2;
      ForwardTriangle(k, k + w, b);
      table := BuildTable(table0, k, w);
      ForwardBelow(table, k, w, b);
    }

    /** A table of fewer bits uses the front of the same cells. */
    lemma FewerCells(table: seq<nat>, w: nat, w': nat)
      requires w' <= w && TableCells(table, Pow2(w))
      ensures TableCells(table, Pow2(w'))
    {
      PowGrows(w', w);
    }

    /** Columns that must remain for a window of w bits. */
    static function UnderThreshold(w: nat): nat {
      if w == 7 then 145 else if w == 6 then 91 else if w == 5 then 70 else 49
    }

    /** Forward substitution: with enough columns by windows of up to seven, getting narrower as
        fewer columns remain, and the rest row by row. */
    method AddSubdiagonalValues(ghost b: Vec)
      requires Eliminated() && Mapped() && Sized() && columns > 0 && b == Vals()
      modifies this
      ensures Sized() && ForwardDone(up, b, Vals(), columns)
    {
      hide Forward, Mapped, ValsOf, SpareCells, Pow2, Eliminated;
      Bounds();
      ForwardNone(up, b, columns);
      assert Steps(0, 0) == seq(columns, _ => 0);
      var p := 0;
      if columns >= UnderThreshold(5) {
        var w := if columns >= UnderThreshold(7) then 7 else if columns >= UnderThreshold(6) then 6 else 5;
        var nextCheck := columns - UnderThreshold(w);
        var size := TableSize(w);
        var ok, table := PickSpares(size);
        if ok {
          while true
            invariant Sized() && 4 <= w <= 7 && TableCells(table, Pow2(w))
            invariant Forward(up, b, Vals(), Steps(p, p), columns)
            invariant p + UnderThreshold(w) <= columns && nextCheck + UnderThreshold(w) <= columns
            invariant w <= 5 ==> columns - p < UnderThreshold(w + 1)
            decreases columns - p
          {
            table := ForwardWindow(table, p, w, b);
            p := p + w;
            // The window never gets wider: the table has no cells for that.
            if p >= nextCheck {
              var remaining := columns - p;
              if remaining < UnderThreshold(4) {
                break;
              }
              var w' := if remaining >= UnderThreshold(6) then 6 else if remaining >= UnderThreshold(5) then 5 else 4;
              FewerCells(table, w, w');
              w := w';
              nextCheck := remaining - UnderThreshold(w);
            }
          }
        }
      }
      ForwardRows(p, b);
    }

    method TableSize(w: nat) returns (size: nat)
      requires 4 <= w <= 7
      ensures size == Pow2(w) && 1 < size <= TABLE
    {
      PowerTable();
      size := Pow2(w);
    }

    // ---------- Back substitution ----------

    /** The upper rows without the entries that windows pass over. */
    ghost function Used(): (r: seq<Vec>)
      requires Eliminated()
      ensures Square(r, columns) && forall i :: 0 <= i < columns ==> r[i][i] == up[i][i]
    {
      UnskippedSquare(up, columnMarks, firstHeavy, pivots, columns);
      Unskipped(up, columnMarks, firstHeavy, pivots)
    }

    ghost predicate Passed(i: nat, j: nat)
      requires i < |pivots|
    {
      Skipped(columnMarks, columns, firstHeavy, pivots, i, j)
    }

    lemma UsedAt(i: nat, j: nat)
      requires Eliminated() && i < columns && j < columns
      ensures i < |pivots| && i < |up| && |up[i]| == columns
      ensures Used()[i][j] == if Passed(i, j) then ZERO else up[i][j]
    {
      hide Skipped;
      assert Used()[i] == UnskippedRow(up[i], columnMarks, firstHeavy, pivots, i);
    }

    /** Nothing is passed over in columns lo .. hi - 1 of row i. */
    lemma UsedSpan(i: nat, v: Vec, lo: nat, hi: nat)
      requires Eliminated() && |v| == columns && i < columns && hi <= columns
      requires i < |pivots| && forall j :: lo <= j < hi ==> !Passed(i, j)
      ensures i < |up| && |up[i]| == columns
      ensures Span(Used()[i], v, lo, hi) == Span(up[i], v, lo, hi)
    {
      hide Skipped, Span, Used, Passed;
      forall j | lo <= j < hi ensures Used()[i][j] == up[i][j] { UsedAt(i, j); }
      SpanAgree(Used()[i], up[i], v, v, lo, hi);
    }

    /** All of columns lo .. hi - 1 of row i is passed over. */
    lemma PassedSpan(i: nat, v: Vec, lo: nat, hi: nat)
      requires Eliminated() && |v| == columns && i < columns && hi <= columns
      requires i < |pivots| && forall j :: lo <= j < hi ==> Passed(i, j)
      ensures Span(Used()[i], v, lo, hi) == ZERO && v[i := Add(v[i], ZERO)] == v
    {
      hide Skipped, Span, Add, Used, Passed;
      forall j | lo <= j < hi ensures Used()[i][j] == ZERO { UsedAt(i, j); }
      SpanZero(Used()[i], v, lo, hi);
      AddZero(v[i]);
    }

    /** From position p on down, everything is taken row by row. */
    ghost predicate Plain(p: nat)
      requires columns <= |pivots|
    {
      forall i, j :: 0 <= i < columns && 0 <= j <= p ==> !Passed(i, j)
    }

    /** Columns k .. e - 1 are a window, which passes over rows from the limit on unless it has heavy columns. */
    ghost predicate Window(k: nat, e: nat)
      requires columns <= |pivots|
    {
      forall i, j :: 0 <= i < columns && k <= j < e ==>
        (Passed(i, j) <==> e <= firstHeavy && i < k && ROW_LIMIT <= pivots[i])
    }

    /** From position k on entries are final; those before k have the entries from e on added, and
        those before x, or of the byte rows before h, the ones from k on. */
    ghost function Lows(k: nat, e: nat, x: nat, h: nat): (l: seq<nat>)
      requires columns <= |pivots|
      ensures |l| == columns
    {
      seq(columns, i requires 0 <= i < columns =>
        if i >= k then i + 1 else if i < x || (i < h && LightRows() <= pivots[i]) then k else e)
    }

    ghost function Finals(k: nat): (d: seq<bool>)
      ensures |d| == columns
    {
      seq(columns, i requires 0 <= i => i >= k)
    }

    /** Entries from k on are final and have been added to all others. */
    ghost predicate BackTo(y: Vec, k: nat)
      requires Mapped() && Sized()
      reads this
    {
      Eliminated() && Backward(Used(), y, Vals(), Lows(k, k, 0, 0), Finals(k), columns)
    }

    /** Divide entry i by its diagonal, unless that is one. */
    method Normalize(i: nat)
      requires Eliminated() && Mapped() && Sized() && i < columns
      modifies this
      ensures Sized() && i < |up| && |up[i]| == columns && up[i][i] != ZERO
      ensures Vals() == old(Vals())[i := Div(old(Vals())[i], up[i][i])]
    {
      hide Div, Mul, Add;
      ghost var v := Vals();
      DiagonalAt(i);
      DivOne(v[i]);
      if LightRows() <= pivots[i] && firstHeavy <= i {
        ByteAt(i, i);
        var code := heavy[pivots[i] - LightRows()][i - firstHeavy];
        if code != ONE {
          CellSet(geColMap, recovery, i, Div(recovery[geColMap[i]], code));
          recovery := recovery[geColMap[i] := Div(recovery[geColMap[i]], code)];
        }
      }
    }

    lemma DiagonalAt(i: nat)
      requires Eliminated() && i < columns
      ensures i < |up| && |up[i]| == columns && i < |pivots| && up[i][i] != ZERO
      ensures !(LightRows() <= pivots[i] && firstHeavy <= i) ==> up[i][i] == ONE
    {
      if !(LightRows() <= pivots[i] && firstHeavy <= i) {
        EarlyBits(i);
        BitAt(i, i);
      }
    }

    /** Add column j to entry i above it. */
    method AddElement(i: nat, j: nat, byByte: bool)
      requires Eliminated() && Mapped() && Sized() && i < j < columns
      requires byByte ==> LightRows() <= pivots[i] && firstHeavy <= j
      requires !byByte ==> ByBit(i, j)
      modifies this
      ensures Sized() && i < |up| && |up[i]| == columns
      ensures Vals() == old(Vals())[i := Add(old(Vals())[i], Span(up[i], old(Vals()), j, j + 1))]
    {
      hide Eliminated, Mapped, ByBit, ValsOf, Span, Add;
      if byByte {
        AddBytes(i, j, j + 1);
      } else {
        AddBits(i, j, j + 1);
      }
    }

    /** Entry p becomes final and is added to the entries above it. */
    method BackRow(p: nat, ghost y: Vec)
      requires Eliminated() && Mapped() && Sized() && p < columns && columns <= |pivots| && Plain(p) && BackTo(y, p + 1)
      modifies this
      ensures Sized() && BackTo(y, p)
    {
      hide Eliminated, Mapped, ByBit, ValsOf, Span, Add, Backward, Div, Used, Passed;
      ghost var v, l := Vals(), Lows(p + 1, p + 1, 0, 0);
      Normalize(p);
      BackwardDivide(Used(), y, v, l, Finals(p + 1), columns, p);
      assert Finals(p + 1)[p := true] == Finals(p);
      assert l == Lows(p, p + 1, 0, 0);
      var i := 0;
      while i < p
        invariant 0 <= i <= p && Sized()
        invariant Backward(Used(), y, Vals(), Lows(p, p + 1, i, 0), Finals(p), columns)
      {
        v, l := Vals(), Lows(p, p + 1, i, 0);
        EarlyBits(i);
        ByBitAbove(i, p);
        assert !Passed(i, p);
        UsedSpan(i, v, p, p + 1);
        AddElement(i, p, LightRows() <= pivots[i] && firstHeavy <= i);
        BackwardStep(Used(), y, v, l, Finals(p), columns, i, p);
        assert l[i := p] == Lows(p, p + 1, i + 1, 0);
        i := i + 1;
      }
      assert Lows(p, p + 1, i, 0) == Lows(p, p, 0, 0);
    }

    lemma ByBitAbove(i: nat, j: nat)
      requires Eliminated() && i < j < columns
      ensures i < |pivots| && (!(LightRows() <= pivots[i] && firstHeavy <= i) ==> ByBit(i, j))
    {
      EarlyBits(i);
    }

    /** Row by row from position p down. */
    method BackRows(p0: nat, ghost y: Vec)
      requires Eliminated() && Mapped() && Sized() && p0 < columns && columns <= |pivots| && Plain(p0)
        && BackTo(y, p0 + 1)
      modifies this
      ensures Sized() && BackTo(y, 0)
    {
      hide Eliminated, Mapped, BackTo, Passed;
      var p: nat := p0;
      while true
        invariant p <= p0 && Sized() && BackTo(y, p + 1)
        decreases p
      {
        BackRow(p, y);
        if p <= 0 {
          break;
        }
        p := p - 1;
      }
    }

    // ---------- Back substitution by windows ----------

    /** In the window k .. e - 1 the entries behind s are final and added to the earlier ones, and
        entry s, final too, to those before d. */
    ghost function TriangleLows(k: nat, e: nat, s: nat, d: nat): (l: seq<nat>)
      ensures |l| == columns
    {
      seq(columns, i requires 0 <= i =>
        if i >= s then i + 1 else if i < k then e else if i < d then s else s + 1)
    }

    /** Entry s of the window becomes final and is added to the ones before it in the window. */
    method BackTriangleRow(k: nat, e: nat, s: nat, ghost y: Vec)
      requires Eliminated() && Mapped() && Sized() && k <= s < e <= columns && columns <= |pivots| && Window(k, e)
      requires Backward(Used(), y, Vals(), TriangleLows(k, e, s + 1, s + 1), Finals(s + 1), columns)
      modifies this
      ensures Sized() && Backward(Used(), y, Vals(), TriangleLows(k, e, s, s), Finals(s), columns)
    {
      hide Eliminated, Mapped, ByBit, ValsOf, Span, Add, Backward, Div, Used, Passed;
      ghost var v, l := Vals(), TriangleLows(k, e, s + 1, s + 1);
      Normalize(s);
      BackwardDivide(Used(), y, v, l, Finals(s + 1), columns, s);
      assert Finals(s + 1)[s := true] == Finals(s);
      assert l == TriangleLows(k, e, s, k);
      var d := k;
      while d < s
        invariant k <= d <= s && Sized()
        invariant Backward(Used(), y, Vals(), TriangleLows(k, e, s, d), Finals(s), columns)
      {
        v, l := Vals(), TriangleLows(k, e, s, d);
        InWindow(d, s);
        assert !Passed(d, s);
        UsedSpan(d, v, s, s + 1);
        AddElement(d, s, LightRows() <= pivots[d] && firstHeavy <= s);
        BackwardStep(Used(), y, v, l, Finals(s), columns, d, s);
        assert l[d := s] == TriangleLows(k, e, s, d + 1);
        d := d + 1;
      }
    }

    lemma InWindow(i: nat, j: nat)
      requires Eliminated() && i < j < columns
      ensures i < |pivots| && (!(LightRows() <= pivots[i] && firstHeavy <= j) ==> ByBit(i, j))
    {
      EarlyBits(i);
    }

    /** The triangle within a window: all of its entries become final. */
    method BackTriangle(k: nat, e: nat, ghost y: Vec)
      requires Eliminated() && Mapped() && Sized() && k < e <= columns && columns <= |pivots| && Window(k, e)
        && BackTo(y, e)
      modifies this
      ensures Sized() && Backward(Used(), y, Vals(), Lows(k, e, 0, 0), Finals(k), columns)
    {
      hide Eliminated, Mapped, Backward, ValsOf, Used, Window;
      Bounds();
      assert Lows(e, e, 0, 0) == TriangleLows(k, e, e, e);
      var s := e;
      while s > k
        invariant k <= s <= e && Sized()
        invariant Backward(Used(), y, Vals(), TriangleLows(k, e, s, s), Finals(s), columns)
      {
        s := s - 1;
        BackTriangleRow(k, e, s, y);
      }
      assert TriangleLows(k, e, k, k) == Lows(k, e, 0, 0);
    }

    /** Where heavy columns are in the window, the byte rows above it take them one by one. */
    method BackBytesAbove(k: nat, e: nat, ghost y: Vec, table: seq<nat>, w: nat)
      requires Eliminated() && Mapped() && Sized() && k < e <= columns && firstHeavy < e && e == k + w
        && columns <= |pivots| && Window(k, e)
      requires TableCells(table, Pow2(w)) && Filled(geColMap, recovery, table, k, w, Pow2(w))
      requires Backward(Used(), y, Vals(), Lows(k, e, 0, 0), Finals(k), columns)
      modifies this
      ensures Sized() && Filled(geColMap, recovery, table, k, w, Pow2(w))
      ensures Backward(Used(), y, Vals(), Lows(k, e, 0, k), Finals(k), columns)
    {
      hide Eliminated, ByBit, ValsOf, Span, Add, Mul, Backward, Filled, SpareCells, Pow2, Used, Passed;
      Bounds();
      var i := 0;
      while i < k
        invariant 0 <= i <= k && Sized() && Filled(geColMap, recovery, table, k, w, Pow2(w))
        invariant Backward(Used(), y, Vals(), Lows(k, e, 0, i), Finals(k), columns)
      {
        ghost var v, l := Vals(), Lows(k, e, 0, i);
        EarlyBits(i);
        RowLength(i);
        if LightRows() <= pivots[i] {
          UsedSpan(i, v, k, e);
          AddWindowBytes(i, k, e, table, w);
          BackwardStep(Used(), y, v, l, Finals(k), columns, i, k);
          assert l[i := k] == Lows(k, e, 0, i + 1);
        } else {
          assert l == Lows(k, e, 0, i + 1);
        }
        i := i + 1;
      }
    }

    /** Columns k .. e - 1 of byte row i: bits before the heavy columns, bytes from there on. */
    method AddWindowBytes(i: nat, k: nat, e: nat, table: seq<nat>, w: nat)
      requires Eliminated() && Mapped() && Sized() && i < k < e <= columns && firstHeavy < e && e == k + w
      requires LightRows() <= pivots[i]
      requires TableCells(table, Pow2(w)) && Filled(geColMap, recovery, table, k, w, Pow2(w))
      modifies this
      ensures Sized() && Filled(geColMap, recovery, table, k, w, Pow2(w))
      ensures i < |up| && |up[i]| == columns
      ensures Vals() == old(Vals())[i := Add(old(Vals())[i], Span(up[i], old(Vals()), k, e))]
    {
      hide Eliminated, ByBit, Span, Add, Mul, Filled, SpareCells, Pow2;
      ghost var v, memory := Vals(), recovery;
      RowLength(i);
      EarlyBits(i);
      if k < firstHeavy {
        forall j | k <= j < firstHeavy ensures ByBit(i, j) { BitsEarly(i, j); }
        AddBits(i, k, firstHeavy);
        AddBytes(i, firstHeavy, e);
        SpanSplit(up[i], v, k, firstHeavy, e);
        SpanAgree(up[i], up[i], v, v[i := Add(v[i], Span(up[i], v, k, firstHeavy))], firstHeavy, e);
        AddAssoc(v[i], Span(up[i], v, k, firstHeavy), Span(up[i], v, firstHeavy, e));
      } else {
        AddBytes(i, k, e);
      }
      OneCell(memory, i);
      FilledKept(geColMap, memory, table, k, w, Pow2(w), i, recovery[geColMap[i]]);
    }

    /** Only the value of column i has changed. */
    lemma OneCell(memory: Vec, i: nat)
      requires Mapped() && Sized() && |memory| == |recovery| && i < columns && KeptBut(geColMap, memory, recovery)
      requires Vals() == ValsOf(geColMap, memory)[i := Vals()[i]]
      ensures recovery == memory[geColMap[i] := recovery[geColMap[i]]]
    {
      forall x | 0 <= x < |memory| && x != geColMap[i] ensures recovery[x] == memory[x] {
        if x in geColMap {
          var c :| 0 <= c < |geColMap| && geColMap[c] == x;
          assert Vals()[c] == ValsOf(geColMap, memory)[c];
        }
      }
    }

    /** The other rows above the window take it from the table. */
    method BackBitsAbove(k: nat, e: nat, ghost y: Vec, table: seq<nat>, w: nat)
      requires Eliminated() && Mapped() && Sized() && k < e <= columns && e == k + w && columns <= |pivots|
        && Window(k, e)
      requires TableCells(table, Pow2(w)) && Filled(geColMap, recovery, table, k, w, Pow2(w))
      requires Backward(Used(), y, Vals(), Lows(k, e, 0, if firstHeavy < e then k else 0), Finals(k), columns)
      modifies this
      ensures Sized() && BackTo(y, k)
    {
      hide Eliminated, ByBit, ValsOf, Span, Add, Mul, Backward, Filled, SpareCells, Pow2, Used, Passed;
      Bounds();
      var limit := if firstHeavy < e then LightRows() else ROW_LIMIT;
      ghost var h := if firstHeavy < e then k else 0;
      var i := 0;
      while i < k
        invariant 0 <= i <= k && Sized() && Filled(geColMap, recovery, table, k, w, Pow2(w))
        invariant Backward(Used(), y, Vals(), Lows(k, e, i, h), Finals(k), columns)
      {
        ghost var v, l := Vals(), Lows(k, e, i, h);
        EarlyBits(i);
        RowLength(i);
        if pivots[i] < limit {
          forall j | k <= j < e ensures ByBit(i, j) { BitsAbove(i, j); }
          UsedSpan(i, v, k, e);
          AddFromTable(i, table, k, w);
          BackwardStep(Used(), y, v, l, Finals(k), columns, i, k);
          assert l[i := k] == Lows(k, e, i + 1, h);
        } else if firstHeavy < e {
          assert l == Lows(k, e, i + 1, h);
        } else {
          PassedSpan(i, v, k, e);
          BackwardStep(Used(), y, v, l, Finals(k), columns, i, k);
          assert l[i := k] == Lows(k, e, i + 1, h);
        }
        i := i + 1;
      }
      assert Lows(k, e, i, h) == Lows(k, k, 0, 0);
    }

    lemma BitsAbove(i: nat, j: nat)
      requires Eliminated() && i < j < columns && i < |pivots| && (pivots[i] < LightRows() || j < firstHeavy)
      ensures ByBit(i, j)
    {
      EarlyBits(i);
    }

    /** One window. */
    method BackWindow(table0: seq<nat>, k: nat, w: nat, ghost y: Vec) returns (table: seq<nat>)
      requires Eliminated() && Mapped() && Sized() && 4 <= w <= 7 && k + w <= columns
      requires columns <= |pivots| && Window(k, k + w) && TableCells(table0, Pow2(w)) && BackTo(y, k + w)
      modifies this
      ensures Sized() && TableCells(table, Pow2(w)) && BackTo(y, k)
    {
      hide Eliminated, Backward, Mapped, ValsOf, Filled, SpareCells, Pow2, BackTo, Used, Window;
      BackTriangle(k, k + w, y);
      table := BuildTable(table0, k, w);
      if firstHeavy < k + w {
        BackBytesAbove(k, k + w, y, table, w);
      }
      BackBitsAbove(k, k + w, y, table, w);
    }

    /** Going down from position p by windows is going down from the last one. */
    ghost predicate Down(p: nat)
      requires columns <= |pivots|
    {
      forall i, j :: 0 <= i < columns && 0 <= j <= p ==>
        (Passed(i, j) <==> ROW_LIMIT <= pivots[i] && Passes(p, firstHeavy, i, j))
    }

    /** One window down. */
    lemma DownStep(p: nat)
      requires columns <= |pivots| && Down(p) && AboveThreshold(4) <= p < columns
      ensures var k := p + 1 - WidthAt(p); Window(k, p + 1) && k > 0 && Down(k - 1)
    {
      hide Passed;
    }

    lemma DownStart()
      requires columns <= |pivots| && columns > 0 && Windowed(columnMarks, columns)
      ensures Down(columns - 1)
    {}

    /** No window is left. */
    lemma DownEnd(p: nat)
      requires columns <= |pivots| && Down(p) && p < AboveThreshold(4)
      ensures Plain(p)
    {
      hide Passed;
    }

    lemma NoWindows()
      requires columns <= |pivots| && columns > 0 && !Windowed(columnMarks, columns)
      ensures Plain(columns - 1)
    {}

    /** Back substitution: by windows from the last position down, narrower ones towards the front,
        and the rest row by row. */
    method BackSubstituteAboveDiagonal(ghost y: Vec)
      requires Eliminated() && Mapped() && Sized() && columns > 0 && y == Vals()
      modifies this
      ensures Sized() && BackDone(Used(), y, Vals(), columns)
    {
      hide Mapped, ValsOf, SpareCells, Pow2, Backward, Eliminated, Used, Down, Plain, Window, Windowed, Passed;
      Bounds();
      BackwardNone(Used(), y, columns);
      assert Lows(columns, columns, 0, 0) == seq(columns, _ => columns);
      assert Finals(columns) == seq(columns, _ => false);
      hide BackTo;
      assert BackTo(y, columns) by { BackToIs(y, columns); }
      var p: nat := columns - 1;
      if p >= AboveThreshold(5) {
        var w := if p >= AboveThreshold(7) then 7 else if p >= AboveThreshold(6) then 6 else 5;
        var nextCheck := AboveThreshold(w);
        var size := TableSize(w);
        var ok, table := PickSpares(size);
        SparesEnough(size);
        if ok {
          DownStart();
          while true
            invariant Sized() && 4 <= w <= 7 && TableCells(table, Pow2(w))
            invariant AboveThreshold(w) <= p < columns && nextCheck == AboveThreshold(w) && w == WidthAt(p)
            invariant Down(p) && BackTo(y, p + 1)
            decreases p
          {
            DownStep(p);
            table := BackWindow(table, p - w + 1, w, y);
            p := p - w;
            if p < nextCheck {
              if p < AboveThreshold(4) {
                DownEnd(p);
                break;
              }
              var w' := if p >= AboveThreshold(6) then 6 else if p >= AboveThreshold(5) then 5 else 4;
              FewerCells(table, w, w');
              w := w';
              nextCheck := AboveThreshold(w);
            }
          }
        } else {
          NoWindows();
        }
      } else {
        TooFew();
        NoWindows();
      }
      BackRows(p, y);
      BackIsDone(y);
    }

    lemma SparesEnough(size: nat)
      requires columns > AboveThreshold(5) && size == Pow2(WidthAt(columns - 1))
      ensures Windowed(columnMarks, columns) <==> PeeledCount(columnMarks) + 1 >= size
    {
      PowerTable();
    }

    lemma TooFew()
      requires columns <= AboveThreshold(5)
      ensures !Windowed(columnMarks, columns)
    {}

    lemma BackToIs(y: Vec, k: nat)
      requires Eliminated() && Mapped() && Sized()
      requires Backward(Used(), y, Vals(), Lows(k, k, 0, 0), Finals(k), columns)
      ensures BackTo(y, k)
    {}

    lemma BackIsDone(y: Vec)
      requires Eliminated() && Mapped() && Sized() && BackTo(y, 0)
      ensures BackDone(Used(), y, Vals(), columns)
    {
      hide Backward;
      BackwardAll(Used(), y, Vals(), Lows(0, 0, 0, 0), Finals(0), columns);
    }
  }
}

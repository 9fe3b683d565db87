/** The row limit of back substitution. A window without heavy columns is added to the rows above it only
    where the row's index is below a constant, which is lower than the largest index there can be. What
    back substitution leaves is that of the rows without the entries passed over. */
module Skipping {
  import opened GF256
  import opened Linear
  import opened Elimination
  import opened Equations
  import opened Triangular
  import opened PeelState
  import opened Spans

  /** Beyond this index a row is passed over by windows without heavy columns. */
  const ROW_LIMIT: nat := 0x7fff

  /** The position from which on a window of w bits is used. */
  function AboveThreshold(w: nat): nat {
    if w == 7 then 135 else if w == 6 then 70 else if w == 5 then 45 else 24
  }

  /** The width of the window that ends at position p. */
  function WidthAt(p: nat): nat {
    if p >= AboveThreshold(7) then 7 else if p >= AboveThreshold(6) then 6 else if p >= AboveThreshold(5) then 5 else 4
  }

  /** Windows are seven columns wide from position 135 on, six from 70, five from 45 and four below. */
  lemma Widths(p: nat)
    ensures 4 <= WidthAt(p) <= 7
    ensures (WidthAt(p) == 7 <==> 135 <= p) && (WidthAt(p) >= 6 <==> 70 <= p) && (WidthAt(p) >= 5 <==> 45 <= p)
  {}

  /** How many columns are peeled. */
  function PeeledCount(marks: seq<Mark>): (r: nat)
    ensures r <= |marks|
  {
    if marks == [] then 0 else PeeledCount(marks[..|marks| - 1]) + if marks[|marks| - 1].Peel? then 1 else 0
  }

  lemma PeeledNext(marks: seq<Mark>, k: nat)
    requires k < |marks|
    ensures PeeledCount(marks[..k + 1]) == PeeledCount(marks[..k]) + if marks[k].Peel? then 1 else 0
  {
    assert marks[..k + 1][..k] == marks[..k];
  }

  lemma {:induction false} PeeledGrows(marks: seq<Mark>, k: nat)
    requires k <= |marks|
    ensures PeeledCount(marks[..k]) <= PeeledCount(marks)
    decreases |marks| - k
  {
    if k < |marks| {
      PeeledNext(marks, k);
      PeeledGrows(marks, k + 1);
    } else {
      assert marks[..k] == marks;
    }
  }

  /** Windows are used when there are enough columns, and enough peeled ones to hold the sums of a window. */
  predicate Windowed(marks: seq<Mark>, columns: nat) {
    && columns > AboveThreshold(5)
    && PeeledCount(marks) + 1 >= if WidthAt(columns - 1) == 7 then 128 else if WidthAt(columns - 1) == 6 then 64 else 32
  }

  /** Going down from position p by windows, column j is in one without heavy columns that lies right of
      column i. */
  predicate Passes(p: nat, firstHeavy: nat, i: nat, j: nat)
    decreases p
  {
    && AboveThreshold(4) <= p && j <= p
    && var k := p + 1 - WidthAt(p);
      if k <= j then p < firstHeavy && i < k else Passes(k - 1, firstHeavy, i, j)
  }

  lemma {:induction false} PassesAbove(p: nat, firstHeavy: nat, i: nat, j: nat)
    requires Passes(p, firstHeavy, i, j)
    ensures i < j < firstHeavy && j <= p
    decreases p
  {
    var k := p + 1 - WidthAt(p);
    if j < k { PassesAbove(k - 1, firstHeavy, i, j); }
  }

  /** Entry j of the row at position i is passed over. */
  predicate Skipped(marks: seq<Mark>, columns: nat, firstHeavy: nat, pivots: seq<nat>, i: nat, j: nat)
    requires i < |pivots|
  {
    Windowed(marks, columns) && ROW_LIMIT <= pivots[i] && Passes(columns - 1, firstHeavy, i, j)
  }

  /** The row at position i without the entries passed over. */
  ghost function UnskippedRow(row: Vec, marks: seq<Mark>, firstHeavy: nat, pivots: seq<nat>, i: nat): (r: Vec)
    requires i < |pivots|
    ensures |r| == |row|
  {
    seq(|row|, j requires 0 <= j < |row| => if Skipped(marks, |row|, firstHeavy, pivots, i, j) then ZERO else row[j])
  }

  /** The rows without the entries passed over. */
  ghost function Unskipped(up: seq<Vec>, marks: seq<Mark>, firstHeavy: nat, pivots: seq<nat>): (r: seq<Vec>)
    requires |up| <= |pivots|
    ensures |r| == |up|
  {
    seq(|up|, i requires 0 <= i < |up| => UnskippedRow(up[i], marks, firstHeavy, pivots, i))
  }

  /** No entry passed over matters. */
  ghost predicate NothingSkipped(up: seq<Vec>, marks: seq<Mark>, firstHeavy: nat, pivots: seq<nat>)
    requires |up| <= |pivots|
  {
    forall i, j :: 0 <= i < |up| && 0 <= j < |up[i]| && Skipped(marks, |up[i]|, firstHeavy, pivots, i, j) ==>
      up[i][j] == ZERO
  }

  lemma UnskippedSquare(up: seq<Vec>, marks: seq<Mark>, firstHeavy: nat, pivots: seq<nat>, n: nat)
    requires |up| <= |pivots| && Square(up, n)
    ensures Square(Unskipped(up, marks, firstHeavy, pivots), n)
    ensures forall i :: 0 <= i < n ==> Unskipped(up, marks, firstHeavy, pivots)[i][i] == up[i][i]
  {
    forall i | 0 <= i < n ensures Unskipped(up, marks, firstHeavy, pivots)[i][i] == up[i][i] {
      if Passes(n - 1, firstHeavy, i, i) { PassesAbove(n - 1, firstHeavy, i, i); }
    }
  }

  lemma AllUnskipped(up: seq<Vec>, marks: seq<Mark>, firstHeavy: nat, pivots: seq<nat>)
    requires |up| <= |pivots|
    ensures NothingSkipped(up, marks, firstHeavy, pivots) <==> Unskipped(up, marks, firstHeavy, pivots) == up
  {
    hide Skipped;
    var t := Unskipped(up, marks, firstHeavy, pivots);
    if NothingSkipped(up, marks, firstHeavy, pivots) {
      forall i | 0 <= i < |up| ensures t[i] == up[i] {
        forall j | 0 <= j < |up[i]| ensures t[i][j] == up[i][j] {}
      }
    }
    if t == up {
      forall i, j | 0 <= i < |up| && 0 <= j < |up[i]| && Skipped(marks, |up[i]|, firstHeavy, pivots, i, j)
        ensures up[i][j] == ZERO {
        assert t[i][j] == ZERO;
      }
    }
  }

  /** Rows below the limit are never passed over. */
  lemma BelowLimit(up: seq<Vec>, marks: seq<Mark>, firstHeavy: nat, pivots: seq<nat>)
    requires |up| <= |pivots| && forall i :: 0 <= i < |up| && i < firstHeavy ==> pivots[i] < ROW_LIMIT
    ensures NothingSkipped(up, marks, firstHeavy, pivots)
  {
    forall i, j | 0 <= i < |up| && 0 <= j < |up[i]| ensures !Skipped(marks, |up[i]|, firstHeavy, pivots, i, j) {
      if Passes(|up[i]| - 1, firstHeavy, i, j) { PassesAbove(|up[i]| - 1, firstHeavy, i, j); }
    }
  }

  // ---------- When the limit does no harm ----------

  function Unit(n: nat, j: nat): (r: Vec)
    ensures |r| == n
  {
    seq(n, c => if c == j then ONE else ZERO)
  }

  lemma {:induction false} UnitDot(u: Vec, n: nat, j: nat, k: nat)
    requires k <= |u| && k <= n
    ensures Dot(u, Unit(n, j), k) == if j < k then u[j] else ZERO
  {
    hide Add, Mul;
    if k > 0 {
      UnitDot(u, n, j, k - 1);
      MulOne(u[k - 1]);
      MulZero(u[k - 1]);
      AddZero(u[k - 1]);
      AddZero(ZERO);
      if j < k - 1 { AddZero(u[j]); }
    }
  }

  /** What the rows without the entries passed over give is right for every right side. */
  ghost predicate AlwaysRight(up: seq<Vec>, marks: seq<Mark>, firstHeavy: nat, pivots: seq<nat>, n: nat)
    requires |up| <= |pivots|
  {
    forall y: Vec, x: Vec :: BackDone(Unskipped(up, marks, firstHeavy, pivots), y, x, n) ==> BackDone(up, y, x, n)
  }

  /** The limit does no harm, whatever the values, exactly when no entry passed over is set. */
  lemma RightUnlessSkipped(up: seq<Vec>, marks: seq<Mark>, firstHeavy: nat, pivots: seq<nat>, n: nat)
    requires |up| <= |pivots| && Square(up, n)
    ensures AlwaysRight(up, marks, firstHeavy, pivots, n) <==> NothingSkipped(up, marks, firstHeavy, pivots)
  {
    hide Skipped, BackDone;
    AllUnskipped(up, marks, firstHeavy, pivots);
    if !NothingSkipped(up, marks, firstHeavy, pivots) {
      var i, j :| 0 <= i < n && 0 <= j < n && Skipped(marks, n, firstHeavy, pivots, i, j) && up[i][j] != ZERO;
      SkippedBreaks(up, marks, firstHeavy, pivots, n, i, j);
    }
  }

  /** The values for which the entry passed over makes a difference. */
  lemma SkippedBreaks(up: seq<Vec>, marks: seq<Mark>, firstHeavy: nat, pivots: seq<nat>, n: nat, i: nat, j: nat)
    requires |up| <= |pivots| && Square(up, n) && i < n && j < n
    requires Skipped(marks, n, firstHeavy, pivots, i, j) && up[i][j] != ZERO
    ensures Square(Unskipped(up, marks, firstHeavy, pivots), n)
    ensures var t, x := Unskipped(up, marks, firstHeavy, pivots), Unit(n, j);
      BackDone(t, Uppers(t, x, n), x, n) && !BackDone(up, Uppers(t, x, n), x, n)
  {
    hide Dot, Passes;
    UnskippedSquare(up, marks, firstHeavy, pivots, n);
    PassesAbove(n - 1, firstHeavy, i, j);
    var t, x := Unskipped(up, marks, firstHeavy, pivots), Unit(n, j);
    UnitDot(Tail(up[i], i), n, j, n);
    UnitDot(Tail(t[i], i), n, j, n);
  }

  // ---------- A matrix where it does harm ----------

  function OneBitMoreRow(n: nat, i: nat): (r: Vec)
    requires n >= HEAVY_COLUMNS + 10
    ensures |r| == n
  {
    seq(n, j => if i == j || (i == 0 && j == n - HEAVY_COLUMNS - 10) then ONE else ZERO)
  }

  /** The identity but for one bit more, in the first row, ten columns before the heavy ones. */
  function OneBitMore(n: nat): (up: seq<Vec>)
    requires n >= HEAVY_COLUMNS + 10
    ensures |up| == n && Square(up, n)
  {
    seq(n, i requires 0 <= i < n => OneBitMoreRow(n, i))
  }

  lemma BitThere(n: nat)
    requires n >= HEAVY_COLUMNS + 10
    ensures OneBitMore(n)[0][n - HEAVY_COLUMNS - 10] == ONE != ZERO
  {
    assert OneBitMore(n)[0] == OneBitMoreRow(n, 0);
  }

  /** What the solver keeps of its lists, with spare rows behind the light ones and heavy rows last: as many
      light and heavy rows as columns, and every row listed at most once. The first row may be a light one or
      a spare one, for the heavy rows are tried in the last columns only. */
  predicate SolverShape(light: nat, spare: nat, n: nat, firstHeavy: nat, pivots: seq<nat>) {
    && n == light + HEAVY_ROWS && n == firstHeavy + HEAVY_COLUMNS && n <= |pivots| && Distinct(pivots)
    && (forall i :: 0 <= i < |pivots| ==> pivots[i] < n + spare) && pivots[0] < light + spare
  }

  /** With the first pivot in row 32767, in a matrix with as many columns as that takes, the bit is lost, and
      what is left of the unit vector of its column is not what the rows give. */
  lemma BitIsLost(marks: seq<Mark>, light: nat, n: nat, pivots: seq<nat>)
    requires n >= HEAVY_COLUMNS && SolverShape(light, MAX_EXTRA_ROWS, n, n - HEAVY_COLUMNS, pivots)
    requires pivots[0] == ROW_LIMIT && PeeledCount(marks) >= 127
    ensures var m := n - HEAVY_COLUMNS; !NothingSkipped(OneBitMore(n), marks, m, pivots)
    ensures var m := n - HEAVY_COLUMNS;
      var t, x := Unskipped(OneBitMore(n), marks, m, pivots), Unit(n, m - 10);
      Square(t, n) && BackDone(t, Uppers(t, x, n), x, n) && !BackDone(OneBitMore(n), Uppers(t, x, n), x, n)
  {
    hide BackDone, Unskipped, OneBitMore, Distinct;
    var m: nat := n - HEAVY_COLUMNS;
    assert Passes(n - 1, m, 0, m - 10) by {
      assert Passes(n - 22, m, 0, m - 10);
      assert Passes(n - 15, m, 0, m - 10);
      assert Passes(n - 8, m, 0, m - 10);
    }
    BitThere(n);
    assert Skipped(marks, n, m, pivots, 0, m - 10);
    SkippedBreaks(OneBitMore(n), marks, m, pivots, n, 0, m - 10);
  }

  /** All rows there are when every spare row was used, the last of these first. */
  function LastSpareFirst(): seq<nat> {
    [ROW_LIMIT] + seq(ROW_LIMIT, i requires 0 <= i => i) + seq(HEAVY_ROWS, i requires 0 <= i => ROW_LIMIT + 1 + i)
  }

  /** The least number of columns for which the lists can look like this. */
  lemma LastSpareInShape(light: nat, n: nat, firstHeavy: nat, pivots: seq<nat>)
    ensures SolverShape(32736, MAX_EXTRA_ROWS, 32742, 32724, LastSpareFirst()) && LastSpareFirst()[0] == ROW_LIMIT
    ensures SolverShape(light, MAX_EXTRA_ROWS, n, firstHeavy, pivots) && pivots[0] == ROW_LIMIT ==> n >= 32742
  {
  }
}

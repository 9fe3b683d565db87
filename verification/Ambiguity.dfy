/** What it means that elimination has stopped: there is a vector other than zero to which every row listed
    applies as zero, so that the rows do not determine the columns. And what it means that it has not. */
module Ambiguity {
  import opened GF256
  import opened Linear
  import opened Progress
  import opened Elimination
  import opened Triangular
  import opened Spans

  /** All upper rows apply to x as zero. */
  ghost predicate Vanishes(upper: seq<Vec>, x: Vec, from: nat, n: nat)
    requires |x| == n && forall j :: 0 <= j < |upper| ==> |upper[j]| == n
  {
    forall j :: from <= j < |upper| ==> Dot(Tail(upper[j], j), x, n) == ZERO
  }

  /** Column k is one, those behind it are zero, and those from i to k are such that the upper rows vanish. */
  ghost predicate KernelFrom(upper: seq<Vec>, x: Vec, i: nat, n: nat) {
    && |x| == n && |upper| < n && i <= |upper| && (forall j :: 0 <= j < |upper| ==> |upper[j]| == n)
    && x[|upper|] == ONE && (forall j :: |upper| < j < n ==> x[j] == ZERO) && (forall j :: 0 <= j < i ==> x[j] == ZERO)
    && Vanishes(upper, x, i, n)
  }

  /** The row applied to x with entry i, which was zero, set to a. */
  lemma TailSet(row: Vec, x: Vec, i: nat, n: nat, a: Byte)
    requires |row| == |x| == n && i < n && x[i] == ZERO
    ensures Dot(Tail(row, i), x[i := a], n) == Add(Mul(row[i], a), Dot(Tail(row, i), x, n))
  {
    hide Add, Mul, Dot, Span;
    SpanTail(row, x, i, n);
    SpanTail(row, x[i := a], i, n);
    SpanFirst(row, x, i, n);
    SpanFirst(row, x[i := a], i, n);
    SpanAgree(row, row, x, x[i := a], i + 1, n);
    MulZero(row[i]);
    AddZero(Span(row, x, i + 1, n));
  }

  lemma TailLater(row: Vec, x: Vec, i: nat, j: nat, n: nat, a: Byte)
    requires |row| == |x| == n && i < j < n
    ensures Dot(Tail(row, j), x[i := a], n) == Dot(Tail(row, j), x, n)
  {
    hide Add, Mul, Dot, Span;
    SpanTail(row, x, j, n);
    SpanTail(row, x[i := a], j, n);
    SpanAgree(row, row, x, x[i := a], j, n);
  }

  /** Back substitution from column |upper| on finds a vector on which all upper rows vanish. */
  lemma {:induction false} KernelExists(upper: seq<Vec>, i: nat, n: nat) returns (x: Vec)
    requires |upper| < n && i <= |upper|
    requires forall j :: 0 <= j < |upper| ==> |upper[j]| == n && upper[j][j] != ZERO
    ensures KernelFrom(upper, x, i, n)
    decreases |upper| - i
  {
    hide Add, Mul, Dot, Tail, Div;
    if i == |upper| {
      x := seq(n, c => if c == |upper| then ONE else ZERO);
    } else {
      var x0 := KernelExists(upper, i + 1, n);
      var s := Dot(Tail(upper[i], i), x0, n);
      var a := Div(s, upper[i][i]);
      x := x0[i := a];
      TailSet(upper[i], x0, i, n, a);
      DivMul(s, upper[i][i]);
      MulComm(a, upper[i][i]);
      AddZero(s);
      forall j | i < j < |upper| ensures Dot(Tail(upper[j], j), x, n) == ZERO { TailLater(upper[j], x0, i, j, n, a); }
    }
  }

  /** So do sums of multiples of them. */
  lemma {:induction false} SumVanishes(row: Vec, upper: seq<Vec>, x: Vec, m: nat, n: nat)
    requires |row| == |x| == n && m <= |upper| && m <= n && (forall j :: 0 <= j < |upper| ==> |upper[j]| == n)
      && Vanishes(upper, x, 0, n)
    ensures Dot(LuSum(row, upper, m), x, n) == ZERO
  {
    hide Add, Mul, Tail, Dot, AddScaled;
    if m == 0 {
      DotZero(Zeros(n), x, n);
    } else {
      SumVanishes(row, upper, x, m - 1, n);
      LuSumUnroll(row, upper, m - 1);
      DotAddScaled(LuSum(row, upper, m - 1), row[m - 1], Tail(upper[m - 1], m - 1), x, n);
      MulZero(row[m - 1]);
      AddZero(ZERO);
    }
  }

  /** And a row whose rest vanishes. */
  lemma RowVanishes(orig: Vec, row: Vec, upper: seq<Vec>, x: Vec, m: nat, n: nat)
    requires LuRow(orig, row, upper, m) && |row| == |x| == n && m <= |upper| && m <= n
    requires (forall j :: 0 <= j < |upper| ==> |upper[j]| == n) && Vanishes(upper, x, 0, n)
      && Dot(Tail(row, m), x, n) == ZERO
    ensures |orig| == n && Dot(orig, x, n) == ZERO
  {
    hide Add, Mul, Tail, Dot, LuSum;
    SumVanishes(row, upper, x, m, n);
    DotAddVec(LuSum(row, upper, m), Tail(row, m), x, n);
    AddZero(ZERO);
  }

  /** What is left of a row without an entry in column k applies as zero. */
  lemma RestVanishes(row: Vec, upper: seq<Vec>, x: Vec, n: nat)
    requires KernelFrom(upper, x, 0, n) && |row| == n && row[|upper|] == ZERO
    ensures Dot(Tail(row, |upper|), x, n) == ZERO
  {
    hide Add, Mul, Dot, Span;
    var k := |upper|;
    SpanTail(row, x, k, n);
    SpanFirst(row, x, k, n);
    MulZero(x[k]);
    SpanSymmetric(row, x, k + 1, n);
    SpanZero(x, row, k + 1, n);
    AddZero(ZERO);
  }

  lemma {:induction false} SpanSymmetric(u: Vec, v: Vec, lo: nat, hi: nat)
    requires hi <= |u| && hi <= |v|
    ensures Span(u, v, lo, hi) == Span(v, u, lo, hi)
  {
    hide Add, Mul;
    if hi > lo {
      SpanSymmetric(u, v, lo, hi - 1);
      MulComm(u[hi - 1], v[hi - 1]);
    }
  }

  /** Every row listed applies to x as zero. */
  ghost predicate Kernel(list: seq<nat>, orig: seq<Vec>, x: Vec, n: nat) {
    |x| == n && forall p :: 0 <= p < |list| ==>
      list[p] < |orig| && |orig[list[p]]| == n
      && Dot(orig[list[p]], x, n) == ZERO
  }

  /** When the search has stopped at a column there is such a vector, not zero there and zero behind it. */
  lemma StoppedKernel(m: Matrix, list: seq<nat>, orig: seq<Vec>, upper: seq<Vec>) returns (x: Vec)
    requires Sound(m, list, orig, upper) && |upper| < m.columns && ZeroAt(m, list, |upper|, |upper|, |list|)
    ensures Kernel(list, orig, x, m.columns)
    ensures x[|upper|] == ONE && forall j :: |upper| < j < m.columns ==> x[j] == ZERO
  {
    hide Add, Mul, Dot, Tail, LuSum, LuRow, Vanishes, BitsRow, MixedRow, HeavyRow, UsedAgree, HeavyFresh;
    var n, k := m.columns, |upper|;
    x := KernelExists(upper, 0, n);
    forall p | 0 <= p < |list| ensures Dot(orig[list[p]], x, n) == ZERO {
      var row := m.Row(list[p]);
      assert LuRow(Select(orig, list)[p], m.Rows(list)[p], upper, Min(p, k));
      if p < k {
        UpperVanishes(upper, x, p, n);
      } else {
        RestVanishes(row, upper, x, n);
      }
      RowVanishes(orig[list[p]], row, upper, x, Min(p, k), n);
    }
  }

  lemma UpperVanishes(upper: seq<Vec>, x: Vec, j: nat, n: nat)
    requires KernelFrom(upper, x, 0, n) && j < |upper|
    ensures Dot(Tail(upper[j], j), x, n) == ZERO
  {
    hide Dot, Tail;
  }

  /** A row that begins behind the column applies as zero too. */
  lemma HeavyVanishes(bytes: Vec, first: nat, x: Vec, k: nat, n: nat)
    requires |x| == n == first + |bytes| && k < first && forall j :: k < j < n ==> x[j] == ZERO
    ensures |HeavyRow(bytes, first)| == n && Dot(HeavyRow(bytes, first), x, n) == ZERO
  {
    hide Add, Mul, Dot, Span;
    var row := HeavyRow(bytes, first);
    SpanDot(row, x, n);
    SpanSplit(row, x, 0, first, n);
    SpanZero(row, x, 0, first);
    SpanSymmetric(row, x, first, n);
    SpanZero(x, row, first, n);
    AddZero(ZERO);
  }

  /** Two solutions of factored rows are the same. */
  lemma FactoredOnce(orig: seq<Vec>, up: seq<Vec>, b: Vec, x: Vec, z: Vec, n: nat)
    requires Factored(orig, up, n) && Solution(orig, b, x, n) && Solution(orig, b, z, n)
    ensures x == z
  {
    hide Add, Mul, Dot, LuRow, Tail;
    var y := Uppers(up, x, n);
    forall i | 0 <= i < n ensures y[i] == Add(b[i], Dot(up[i], y, i)) {
      RowSplits(orig[i], up, x, i, n);
      AddComm(Dot(up[i], y, i), y[i]);
      AddCancel(Dot(up[i], y, i), y[i]);
    }
    SolutionUnique(orig, up, b, y, x, z, n);
  }
}

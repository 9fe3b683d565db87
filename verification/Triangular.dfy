/** What the two substitutions compute: with every pivot found, forward then
    backward substitution gives the one solution of the original rows. */
module Triangular {
  import opened GF256
  import opened Linear

  /** Row i of a complete factorisation: multipliers left of the diagonal, upper row from it on. */
  ghost predicate Factored(orig: seq<Vec>, up: seq<Vec>, n: nat) {
    && |orig| == n && |up| == n
    && (forall i :: 0 <= i < n ==> |up[i]| == n)
    && (forall i :: 0 <= i < n ==> LuRow(orig[i], up[i], up, i))
    && (forall i :: 0 <= i < n ==> up[i][i] != ZERO)
  }

  /** z satisfies the original equations orig[i] . z = b[i]. */
  ghost predicate Solution(orig: seq<Vec>, b: Vec, z: Vec, n: nat) {
    && |orig| == n && |b| == n && |z| == n
    && (forall i :: 0 <= i < n ==> |orig[i]| == n && Dot(orig[i], z, n) == b[i])
  }

  /** y is what forward substitution leaves: b with the multiples of earlier entries added. */
  ghost predicate ForwardDone(up: seq<Vec>, b: Vec, y: Vec, n: nat) {
    && |up| == n && |b| == n && |y| == n
    && (forall i :: 0 <= i < n ==> |up[i]| == n)
    && (forall i :: 0 <= i < n ==> y[i] == Add(b[i], Dot(up[i], y, i)))
  }

  /** x is what back substitution leaves: every upper row holds. */
  ghost predicate BackDone(up: seq<Vec>, y: Vec, x: Vec, n: nat) {
    && |up| == n && |y| == n && |x| == n
    && (forall i :: 0 <= i < n ==> |up[i]| == n)
    && (forall i :: 0 <= i < n ==> Dot(Tail(up[i], i), x, n) == y[i])
  }

  /** The upper rows applied to x. */
  function Uppers(up: seq<Vec>, x: Vec, n: nat): (t: Vec)
    requires |up| == n && |x| == n
    requires forall i :: 0 <= i < n ==> |up[i]| == n
    ensures |t| == n
  {
    seq(n, i requires 0 <= i < n => Dot(Tail(up[i], i), x, n))
  }

  lemma {:induction false} LuSumDot(row: Vec, up: seq<Vec>, x: Vec, m: nat, n: nat)
    requires |up| == n && |x| == n && |row| == n && m <= n
    requires forall i :: 0 <= i < n ==> |up[i]| == n
    ensures Dot(LuSum(row, up, m), x, n) == Dot(row, Uppers(up, x, n), m)
  {
    hide Add, Mul;
    if m == 0 {
      DotZero(Zeros(n), x, n);
    } else {
      LuSumDot(row, up, x, m - 1, n);
      DotAddScaled(LuSum(row, up, m - 1), row[m - 1], Tail(up[m - 1], m - 1), x, n);
    }
  }

  /** An original row applied to z, split at its own position. */
  lemma RowSplits(orig: Vec, up: seq<Vec>, z: Vec, i: nat, n: nat)
    requires |up| == n && |z| == n && i < n
    requires forall j :: 0 <= j < n ==> |up[j]| == n
    requires LuRow(orig, up[i], up, i)
    ensures |orig| == n
    ensures Dot(orig, z, n) == Add(Dot(up[i], Uppers(up, z, n), i), Uppers(up, z, n)[i])
  {
    hide Add, Mul, LuSum, Dot;
    DotAddVec(LuSum(up[i], up, i), Tail(up[i], i), z, n);
    LuSumDot(up[i], up, z, i, n);
  }

  lemma {:induction false} DotSame(u: Vec, x: Vec, x': Vec, k: nat)
    requires k <= |u| && k <= |x| && k <= |x'|
    requires forall c :: 0 <= c < k ==> x[c] == x'[c]
    ensures Dot(u, x, k) == Dot(u, x', k)
  {
    hide Add, Mul;
    if k > 0 { DotSame(u, x, x', k - 1); }
  }

  /** The substitutions solve the original system ... */
  lemma SubstitutionsSolve(orig: seq<Vec>, up: seq<Vec>, b: Vec, y: Vec, x: Vec, n: nat)
    requires Factored(orig, up, n) && ForwardDone(up, b, y, n) && BackDone(up, y, x, n)
    ensures Solution(orig, b, x, n)
  {
    hide Add, Mul, LuSum, Dot;
    forall i | 0 <= i < n ensures |orig[i]| == n && Dot(orig[i], x, n) == b[i] {
      var t := Uppers(up, x, n);
      assert t == y;
      RowSplits(orig[i], up, x, i, n);
      var d := Dot(up[i], y, i);
      AddComm(b[i], d);
      AddCancel(d, b[i]);
    }
  }

  /** ... and any solution agrees with what forward substitution computed. */
  lemma {:induction false} SolutionIsForward(orig: seq<Vec>, up: seq<Vec>, b: Vec, y: Vec, z: Vec, n: nat, m: nat)
    requires Factored(orig, up, n) && ForwardDone(up, b, y, n) && Solution(orig, b, z, n)
    requires m <= n
    ensures forall i :: 0 <= i < m ==> Uppers(up, z, n)[i] == y[i]
  {
    hide Add, Mul, LuSum, Dot;
    if m > 0 {
      var i := m - 1;
      SolutionIsForward(orig, up, b, y, z, n, i);
      var t := Uppers(up, z, n);
      RowSplits(orig[i], up, z, i, n);
      DotSame(up[i], t, y, i);
      AddCancel(Dot(up[i], y, i), t[i]);
      AddComm(Dot(up[i], y, i), b[i]);
    }
  }

  /** A triangular sum read off at its diagonal. */
  lemma {:induction false} TailDiagonal(row: Vec, x: Vec, x': Vec, i: nat, k: nat)
    requires i < k <= |row| && k <= |x| && k <= |x'|
    requires forall c :: i < c < k ==> x[c] == x'[c]
    ensures Add(Dot(Tail(row, i), x, k), Mul(row[i], x[i])) == Add(Dot(Tail(row, i), x', k), Mul(row[i], x'[i]))
  {
    hide Add, Mul;
    var t := Tail(row, i);
    if k == i + 1 {
      DotZero(t, x, i);
      DotZero(t, x', i);
      AddZero(Mul(row[i], x[i]));
      AddZero(Mul(row[i], x'[i]));
    } else {
      TailDiagonal(row, x, x', i, k - 1);
      var p, p', m, d, d' := Mul(row[i], x[i]), Mul(row[i], x'[i]), Mul(row[k - 1], x[k - 1]), Dot(t, x, k - 1),
        Dot(t, x', k - 1);
      AddComm(m, p); AddAssoc(d, m, p); AddAssoc(d, p, m);
      AddComm(m, p'); AddAssoc(d', m, p'); AddAssoc(d', p', m);
    }
  }

  lemma {:induction false} UpperUnique(up: seq<Vec>, x: Vec, z: Vec, n: nat, m: nat)
    requires |up| == n && |x| == n && |z| == n && m <= n
    requires forall i :: 0 <= i < n ==> |up[i]| == n && up[i][i] != ZERO
    requires Uppers(up, x, n) == Uppers(up, z, n)
    ensures forall i :: m <= i < n ==> x[i] == z[i]
    decreases n - m
  {
    hide Add, Mul, Dot;
    if m < n {
      UpperUnique(up, x, z, n, m + 1);
      TailDiagonal(up[m], x, z, m, n);
      var d := Uppers(up, x, n)[m];
      assert d == Uppers(up, z, n)[m];
      AddCancel(d, Mul(up[m][m], x[m]));
      AddCancel(d, Mul(up[m][m], z[m]));
      MulComm(up[m][m], x[m]);
      MulComm(up[m][m], z[m]);
      MulCancel(x[m], z[m], up[m][m]);
    }
  }

  /** The system has no other solution than the one computed. */
  lemma SolutionUnique(orig: seq<Vec>, up: seq<Vec>, b: Vec, y: Vec, x: Vec, z: Vec, n: nat)
    requires Factored(orig, up, n) && ForwardDone(up, b, y, n) && BackDone(up, y, x, n)
    requires Solution(orig, b, z, n)
    ensures z == x
  {
    hide Add, Mul, LuSum, Dot;
    SolutionIsForward(orig, up, b, y, z, n, n);
    assert Uppers(up, z, n) == y;
    assert Uppers(up, x, n) == y;
    UpperUnique(up, x, z, n, 0);
  }
}

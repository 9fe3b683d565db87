/** The heavy rows. Their matrix is a Cauchy matrix: entry (i, j) is the inverse of x[i] + y[j]. Any k of its rows
    are independent in any k of its columns, so that six heavy rows make up for any six missing pivots there. */
module Cauchy {
  import opened GF256
  import opened Linear
  import opened Elimination
  import opened Equations

  // ---------- Cauchy matrices ----------

  predicate Different(v: Vec) {
    forall i, j :: 0 <= i < j < |v| ==> v[i] != v[j]
  }

  predicate EntryIs(a: Byte, x: Byte, y: Byte) {
    Mul(a, Add(x, y)) == ONE
  }

  ghost predicate IsCauchy(m: seq<Vec>, xs: Vec, ys: Vec) {
    && |m| == |xs| && (forall i :: 0 <= i < |xs| ==> |m[i]| == |ys|)
    && (forall i, j :: 0 <= i < |xs| && 0 <= j < |ys| ==> EntryIs(m[i][j], xs[i], ys[j]))
  }

  lemma NoZeroDivisors(a: Byte, b: Byte)
    requires Mul(a, b) == ZERO && b != ZERO
    ensures a == ZERO
  {
    hide Mul;
    MulZero(b);
    MulCancel(a, ZERO, b);
  }

  lemma SumZero(a: Byte, b: Byte)
    ensures Add(a, b) == ZERO <==> a == b
  {}

  /** The difference of two parameters by way of a third. */
  lemma Through(a: Byte, b: Byte, c: Byte)
    ensures Add(a, b) == Add(Add(a, c), Add(b, c))
  {}

  /** p (y + z) v == v + (x + y) p v when p is the inverse of x + z. */
  lemma Shifted(p: Byte, v: Byte, x: Byte, y: Byte, z: Byte)
    requires EntryIs(p, x, z)
    ensures Mul(p, Mul(v, Add(y, z))) == Add(v, Mul(Add(x, y), Mul(p, v)))
  {
    hide Add, Mul;
    var s := Add(y, z);
    Through(y, z, x);
    AddComm(y, x);
    AddComm(z, x);
    MulAddLeft(Add(x, y), Add(x, z), Mul(p, v));
    MulAssoc(Add(x, z), p, v);
    MulComm(Add(x, z), p);
    MulOne(v);
    MulComm(v, s);
    MulAssoc(p, s, v);
    MulComm(p, s);
    MulAssoc(s, p, v);
    AddComm(v, Mul(Add(x, y), Mul(p, v)));
  }

  /** One term of the sum from which a row and a column were taken away. */
  lemma Term(p: Byte, q: Byte, v: Byte, x: Byte, x0: Byte, y: Byte, z: Byte)
    requires EntryIs(p, x, z) && EntryIs(q, x0, z)
    ensures var w := Mul(q, Mul(v, Add(y, z)));
      Mul(Add(x, x0), Mul(p, w)) == Add(Mul(Add(x, y), Mul(p, v)), Mul(Add(x0, y), Mul(q, v)))
  {
    hide Add, Mul;
    var u := Mul(v, Add(y, z));
    var w := Mul(q, u);
    Through(x, x0, z);
    MulAddLeft(Add(x, z), Add(x0, z), Mul(p, w));
    Undone(p, Add(x, z), w);
    assert Mul(Add(x0, z), Mul(p, w)) == Mul(p, u) by {
      Swapped(Add(x0, z), p, w);
      Undone(q, Add(x0, z), u);
    }
    Shifted(p, v, x, y, z);
    Shifted(q, v, x0, y, z);
    AddSwap(v, Mul(Add(x0, y), Mul(q, v)), v, Mul(Add(x, y), Mul(p, v)));
    AddZero(v);
    AddZero(Add(Mul(Add(x0, y), Mul(q, v)), Mul(Add(x, y), Mul(p, v))));
    AddComm(Mul(Add(x0, y), Mul(q, v)), Mul(Add(x, y), Mul(p, v)));
  }

  lemma Undone(p: Byte, s: Byte, w: Byte)
    requires Mul(p, s) == ONE
    ensures Mul(s, Mul(p, w)) == w
  {
    hide Mul;
    MulComm(p, s);
    MulAssoc(s, p, w);
    MulOne(w);
  }

  lemma Swapped(a: Byte, b: Byte, c: Byte)
    ensures Mul(a, Mul(b, c)) == Mul(b, Mul(a, c))
  {
    hide Mul;
    MulAssoc(a, b, c);
    MulComm(a, b);
    MulAssoc(b, a, c);
  }

  /** The values with one column less. */
  function Reduced(last: Vec, v: Vec, y: Byte, ys: Vec, k: nat): (w: Vec)
    requires k <= |last| && k <= |v| && k <= |ys|
    ensures |w| == k
  {
    seq(k, j requires 0 <= j < k => Mul(last[j], Mul(v[j], Add(y, ys[j]))))
  }

  lemma {:induction false} ReducedSum(row: Vec, last: Vec, v: Vec, x: Byte, x0: Byte, y: Byte, ys: Vec, n: nat, k: nat)
    requires k <= n <= |row| && n <= |last| && n <= |v| && n <= |ys|
    requires forall j :: 0 <= j < n ==> EntryIs(row[j], x, ys[j]) && EntryIs(last[j], x0, ys[j])
    ensures Mul(Add(x, x0), Dot(row, Reduced(last, v, y, ys, n), k))
      == Add(Mul(Add(x, y), Dot(row, v, k)), Mul(Add(x0, y), Dot(last, v, k)))
  {
    hide Add, Mul, EntryIs;
    var w := Reduced(last, v, y, ys, n);
    if k == 0 {
      MulZero(Add(x, x0));
      MulZero(Add(x, y));
      MulZero(Add(x0, y));
      AddZero(ZERO);
    } else {
      var i := k - 1;
      ReducedSum(row, last, v, x, x0, y, ys, n, i);
      Term(row[i], last[i], v[i], x, x0, y, ys[i]);
      MulAddRight(Add(x, x0), Dot(row, w, i), Mul(row[i], w[i]));
      MulAddRight(Add(x, y), Dot(row, v, i), Mul(row[i], v[i]));
      MulAddRight(Add(x0, y), Dot(last, v, i), Mul(last[i], v[i]));
      AddSwap(Mul(Add(x, y), Dot(row, v, i)), Mul(Add(x0, y), Dot(last, v, i)), Mul(Add(x, y), Mul(row[i], v[i])),
        Mul(Add(x0, y), Mul(last[i], v[i])));
    }
  }

  /** Where a row sums to zero, its front is minus its last term. */
  lemma FrontIs(row: Vec, v: Vec, x: Byte, y: Byte, n: nat)
    requires |row| == |v| == n + 1 && Dot(row, v, n + 1) == ZERO && EntryIs(row[n], x, y)
    ensures Mul(Add(x, y), Dot(row, v, n)) == v[n]
  {
    hide Add, Mul;
    SumZero(Dot(row, v, n), Mul(row[n], v[n]));
    Undone(row[n], Add(x, y), v[n]);
  }

  /** A row of the smaller matrix sums to zero again. */
  lemma SmallerRow(row: Vec, last: Vec, v: Vec, x: Byte, x0: Byte, ys: Vec, n: nat)
    requires |row| == |last| == |v| == |ys| == n + 1 && x != x0
    requires forall j :: 0 <= j <= n ==> EntryIs(row[j], x, ys[j]) && EntryIs(last[j], x0, ys[j])
    requires Dot(row, v, n + 1) == ZERO && Dot(last, v, n + 1) == ZERO
    ensures Dot(row[..n], Reduced(last, v, ys[n], ys, n), n) == ZERO
  {
    hide Add, Mul, EntryIs, Dot, Reduced;
    var w := Reduced(last, v, ys[n], ys, n);
    ReducedSum(row, last, v, x, x0, ys[n], ys, n, n);
    FrontIs(row, v, x, ys[n], n);
    FrontIs(last, v, x0, ys[n], n);
    AddZero(v[n]);
    SumZero(x, x0);
    MulComm(Add(x, x0), Dot(row, w, n));
    NoZeroDivisors(Dot(row, w, n), Add(x, x0));
    DotAgree(row[..n], row, w, n);
  }

  /** Only zero is taken to zero by as many rows as there are columns. */
  lemma {:induction false} Regular(m: seq<Vec>, xs: Vec, ys: Vec, v: Vec)
    requires IsCauchy(m, xs, ys) && Different(xs) && Different(ys) && |xs| == |ys| == |v|
    requires forall i :: 0 <= i < |xs| ==> Dot(m[i], v, |v|) == ZERO
    ensures forall j :: 0 <= j < |v| ==> v[j] == ZERO
    decreases |v|
  {
    hide Add, Mul, EntryIs, Dot;
    if |v| > 0 {
      var n: nat := |v| - 1;
      var last := m[n];
      var m' := seq(n, i requires 0 <= i < n => m[i][..n]);
      var w := Reduced(last, v, ys[n], ys, n);
      forall i | 0 <= i < n ensures Dot(m'[i], w, n) == ZERO {
        SmallerRow(m[i], last, v, xs[i], xs[n], ys, n);
      }
      Regular(m', xs[..n], ys[..n], w);
      forall j | 0 <= j < n ensures v[j] == ZERO {
        assert w[j] == ZERO;
        FactorZero(last[j], v[j], xs[n], ys[n], ys[j]);
      }
      LastZero(last, v, xs[n], ys[n], n);
    }
  }

  lemma FactorZero(q: Byte, v: Byte, x0: Byte, y: Byte, z: Byte)
    requires EntryIs(q, x0, z) && y != z && Mul(q, Mul(v, Add(y, z))) == ZERO
    ensures v == ZERO
  {
    hide Add, Mul;
    Undone(q, Add(x0, z), Mul(v, Add(y, z)));
    MulZero(Add(x0, z));
    SumZero(y, z);
    NoZeroDivisors(v, Add(y, z));
  }

  lemma LastZero(last: Vec, v: Vec, x: Byte, y: Byte, n: nat)
    requires |last| == |v| == n + 1 && EntryIs(last[n], x, y) && Dot(last, v, n + 1) == ZERO
    requires forall j :: 0 <= j < n ==> v[j] == ZERO
    ensures v[n] == ZERO
  {
    hide Add, Mul;
    FrontIs(last, v, x, y, n);
    FrontZero(last, v, n);
    MulZero(Add(x, y));
  }

  lemma {:induction false} FrontZero(u: Vec, v: Vec, n: nat)
    requires n <= |u| && n <= |v| && forall j :: 0 <= j < n ==> v[j] == ZERO
    ensures Dot(u, v, n) == ZERO
  {
    hide Add, Mul;
    if n > 0 {
      FrontZero(u, v, n - 1);
      MulZero(u[n - 1]);
      AddZero(ZERO);
    }
  }

  // ---------- The heavy matrix is one ----------

  const HEAVY_XS: Vec := [H(0), H(1), H(6), H(7), H(4), H(5)]
  const HEAVY_YS: Vec := [
    H(0xb4), H(0xb5), H(0xaa), H(0xab), H(0xa8), H(0xa9), H(0xae), H(0xaf), H(0xac), H(0xad), H(0xa2), H(0xa3),
    H(0xa0), H(0xa1), H(0xa6), H(0xa7), H(0xa4), H(0xa5)]

  predicate Inverses(a: Byte, s: Byte) {
    Mul(a, s) == ONE
  }

  lemma Inverse(a: Byte, s: Byte)
    requires Sum8(If(s.bits & 1 == 1, a), If(s.bits & 2 == 2, Double(a)), If(s.bits & 4 == 4, Double(Double(a))),
      If(s.bits & 8 == 8, Double(Double(Double(a)))), If(s.bits & 16 == 16, Double(Double(Double(Double(a))))),
      If(s.bits & 32 == 32, Double(Double(Double(Double(Double(a)))))),
      If(s.bits & 64 == 64, Double(Double(Double(Double(Double(Double(a))))))),
      If(s.bits & 128 == 128, Double(Double(Double(Double(Double(Double(Double(a))))))))) == ONE
    ensures Inverses(a, s)
  {
    hide Double, If, Sum8;
    MulUnrolled(a, s);
  }

  /** The inverses that occur. */
  lemma HeavyInverses()
    ensures Inverses(H(0xbc), H(0xa0)) && Inverses(H(0xfa), H(0xa1)) && Inverses(H(0x58), H(0xa2))
    ensures Inverses(H(0x48), H(0xa3)) && Inverses(H(0x43), H(0xa4)) && Inverses(H(0xe8), H(0xa5))
    ensures Inverses(H(0x02), H(0xa6)) && Inverses(H(0xc5), H(0xa7)) && Inverses(H(0x38), H(0xa8))
    ensures Inverses(H(0x95), H(0xa9)) && Inverses(H(0x66), H(0xaa)) && Inverses(H(0xf3), H(0xab))
    ensures Inverses(H(0x57), H(0xac)) && Inverses(H(0xaf), H(0xad)) && Inverses(H(0x56), H(0xae))
    ensures Inverses(H(0xad), H(0xaf)) && Inverses(H(0x51), H(0xb0)) && Inverses(H(0x34), H(0xb1))
    ensures Inverses(H(0x82), H(0xb2)) && Inverses(H(0x22), H(0xb3)) && Inverses(H(0x85), H(0xb4))
    ensures Inverses(H(0xd3), H(0xb5))
  {
    hide Inverses;
    Inverse(H(0xbc), H(0xa0)); Inverse(H(0xfa), H(0xa1)); Inverse(H(0x58), H(0xa2));
    Inverse(H(0x48), H(0xa3)); Inverse(H(0x43), H(0xa4)); Inverse(H(0xe8), H(0xa5));
    Inverse(H(0x02), H(0xa6)); Inverse(H(0xc5), H(0xa7)); Inverse(H(0x38), H(0xa8));
    Inverse(H(0x95), H(0xa9)); Inverse(H(0x66), H(0xaa)); Inverse(H(0xf3), H(0xab));
    Inverse(H(0x57), H(0xac)); Inverse(H(0xaf), H(0xad)); Inverse(H(0x56), H(0xae));
    Inverse(H(0xad), H(0xaf)); Inverse(H(0x51), H(0xb0)); Inverse(H(0x34), H(0xb1));
    Inverse(H(0x82), H(0xb2)); Inverse(H(0x22), H(0xb3)); Inverse(H(0x85), H(0xb4));
    Inverse(H(0xd3), H(0xb5));
  }

  /** What each entry of the heavy matrix is the inverse of. */
  const HEAVY_SUMS: seq<Vec> := [
    [H(0xb4), H(0xb5), H(0xaa), H(0xab), H(0xa8), H(0xa9), H(0xae), H(0xaf), H(0xac), H(0xad), H(0xa2), H(0xa3),
      H(0xa0), H(0xa1), H(0xa6), H(0xa7), H(0xa4), H(0xa5)],
    [H(0xb5), H(0xb4), H(0xab), H(0xaa), H(0xa9), H(0xa8), H(0xaf), H(0xae), H(0xad), H(0xac), H(0xa3), H(0xa2),
      H(0xa1), H(0xa0), H(0xa7), H(0xa6), H(0xa5), H(0xa4)],
    [H(0xb2), H(0xb3), H(0xac), H(0xad), H(0xae), H(0xaf), H(0xa8), H(0xa9), H(0xaa), H(0xab), H(0xa4), H(0xa5),
      H(0xa6), H(0xa7), H(0xa0), H(0xa1), H(0xa2), H(0xa3)],
    [H(0xb3), H(0xb2), H(0xad), H(0xac), H(0xaf), H(0xae), H(0xa9), H(0xa8), H(0xab), H(0xaa), H(0xa5), H(0xa4),
      H(0xa7), H(0xa6), H(0xa1), H(0xa0), H(0xa3), H(0xa2)],
    [H(0xb0), H(0xb1), H(0xae), H(0xaf), H(0xac), H(0xad), H(0xaa), H(0xab), H(0xa8), H(0xa9), H(0xa6), H(0xa7),
      H(0xa4), H(0xa5), H(0xa2), H(0xa3), H(0xa0), H(0xa1)],
    [H(0xb1), H(0xb0), H(0xaf), H(0xae), H(0xad), H(0xac), H(0xab), H(0xaa), H(0xa9), H(0xa8), H(0xa7), H(0xa6),
      H(0xa5), H(0xa4), H(0xa3), H(0xa2), H(0xa1), H(0xa0)]]

  lemma FirstSums(i: nat, j: nat)
    requires i < 2 && j < HEAVY_COLUMNS
    ensures |HEAVY_SUMS| == HEAVY_ROWS && |HEAVY_SUMS[i]| == HEAVY_COLUMNS
    ensures HEAVY_SUMS[i][j] == Add(HEAVY_XS[i], HEAVY_YS[j])
  {}

  lemma MiddleSums(i: nat, j: nat)
    requires 2 <= i < 4 && j < HEAVY_COLUMNS
    ensures |HEAVY_SUMS| == HEAVY_ROWS && |HEAVY_SUMS[i]| == HEAVY_COLUMNS
    ensures HEAVY_SUMS[i][j] == Add(HEAVY_XS[i], HEAVY_YS[j])
  {}

  lemma LastSums(i: nat, j: nat)
    requires 4 <= i < HEAVY_ROWS && j < HEAVY_COLUMNS
    ensures |HEAVY_SUMS| == HEAVY_ROWS && |HEAVY_SUMS[i]| == HEAVY_COLUMNS
    ensures HEAVY_SUMS[i][j] == Add(HEAVY_XS[i], HEAVY_YS[j])
  {}

  lemma InverseAt(i: nat, j: nat)
    requires i < HEAVY_ROWS && j < HEAVY_COLUMNS
    ensures |HEAVY_MATRIX| == |HEAVY_SUMS| == HEAVY_ROWS && |HEAVY_MATRIX[i]| == |HEAVY_SUMS[i]| == HEAVY_COLUMNS
    ensures Inverses(HEAVY_MATRIX[i][j], HEAVY_SUMS[i][j])
  {
    hide Inverses, H;
    HeavyInverses();
  }

  /** The heavy matrix is the Cauchy matrix of these parameters. */
  lemma HeavyIsCauchy(i: nat, j: nat)
    requires i < HEAVY_ROWS && j < HEAVY_COLUMNS
    ensures |HEAVY_MATRIX| == HEAVY_ROWS && |HEAVY_MATRIX[i]| == HEAVY_COLUMNS
    ensures EntryIs(HEAVY_MATRIX[i][j], HEAVY_XS[i], HEAVY_YS[j])
  {
    hide Mul, Add, H;
    InverseAt(i, j);
    if i < 2 { FirstSums(i, j); } else if i < 4 { MiddleSums(i, j); } else { LastSums(i, j); }
  }

  lemma YDiffers(i: nat, j: nat)
    requires i < j < HEAVY_COLUMNS
    ensures |HEAVY_YS| == HEAVY_COLUMNS && HEAVY_YS[i] != HEAVY_YS[j]
  {
    if i < 4 { FirstDiffer(i, j); } else if i < 9 { MiddleDiffer(i, j); } else { LastDiffer(i, j); }
  }

  lemma FirstDiffer(i: nat, j: nat)
    requires i < 4 && i < j < HEAVY_COLUMNS
    ensures HEAVY_YS[i] != HEAVY_YS[j]
  {}

  lemma MiddleDiffer(i: nat, j: nat)
    requires 4 <= i < 9 && i < j < HEAVY_COLUMNS
    ensures HEAVY_YS[i] != HEAVY_YS[j]
  {}

  lemma LastDiffer(i: nat, j: nat)
    requires 9 <= i < j < HEAVY_COLUMNS
    ensures HEAVY_YS[i] != HEAVY_YS[j]
  {}

  lemma Parameters()
    ensures |HEAVY_XS| == HEAVY_ROWS && |HEAVY_YS| == HEAVY_COLUMNS && Different(HEAVY_XS) && Different(HEAVY_YS)
  {
    forall i, j | 0 <= i < j < HEAVY_COLUMNS ensures |HEAVY_YS| == HEAVY_COLUMNS && HEAVY_YS[i] != HEAVY_YS[j] {
      hide H;
      YDiffers(i, j);
    }
  }

  /** The positions below k where z is not zero. */
  function NonZeros(z: Vec, k: nat): (r: seq<nat>)
    requires k <= |z|
    ensures |r| <= k && forall i :: 0 <= i < |r| ==> r[i] < k
  {
    if k == 0 then [] else if z[k - 1] == ZERO then NonZeros(z, k - 1) else NonZeros(z, k - 1) + [k - 1]
  }

  lemma {:induction false} NonZerosAre(z: Vec, k: nat)
    requires k <= |z|
    ensures var r := NonZeros(z, k);
      && (forall i, j :: 0 <= i < j < |r| ==> r[i] != r[j])
      && (forall c :: 0 <= c < k && z[c] != ZERO ==> c in r)
  {
    if k > 0 { NonZerosAre(z, k - 1); }
  }

  function At(v: Vec, cs: seq<nat>): (r: Vec)
    requires forall i :: 0 <= i < |cs| ==> cs[i] < |v|
    ensures |r| == |cs|
  {
    seq(|cs|, i requires 0 <= i < |cs| => v[cs[i]])
  }

  lemma {:induction false} DotNonZeros(row: Vec, z: Vec, k: nat)
    requires k <= |row| == |z|
    ensures var cs := NonZeros(z, k); Dot(At(row, cs), At(z, cs), |cs|) == Dot(row, z, k)
  {
    hide Add, Mul;
    if k > 0 {
      DotNonZeros(row, z, k - 1);
      var front, cs := NonZeros(z, k - 1), NonZeros(z, k);
      if z[k - 1] == ZERO {
        MulZero(row[k - 1]);
        AddZero(Dot(row, z, k - 1));
      } else {
        assert cs == front + [k - 1];
        DotSame(At(row, cs), At(row, front), At(z, cs), At(z, front), |front|);
        assert At(row, cs)[|front|] == row[k - 1] && At(z, cs)[|front|] == z[k - 1];
      }
    }
  }

  lemma {:induction false} DotSame(u: Vec, u': Vec, v: Vec, v': Vec, k: nat)
    requires k <= |u| && k <= |u'| && k <= |v| && k <= |v'|
    requires forall i :: 0 <= i < k ==> u[i] == u'[i] && v[i] == v'[i]
    ensures Dot(u, v, k) == Dot(u', v', k)
  {
    hide Add, Mul;
    if k > 0 { DotSame(u, u', v, v', k - 1); }
  }

  /** Values in the heavy columns that as many heavy rows take to zero as there are values other than zero are all
      zero. So what all six take to zero has at least seven values other than zero, or none. */
  lemma HeavyDistance(rs: seq<nat>, z: Vec)
    requires |z| == HEAVY_COLUMNS && |NonZeros(z, |z|)| <= |rs|
    requires forall i :: 0 <= i < |rs| ==> rs[i] < HEAVY_ROWS
    requires forall i, j :: 0 <= i < j < |rs| ==> rs[i] != rs[j]
    requires forall i :: 0 <= i < |rs| ==>
      |HEAVY_MATRIX| == HEAVY_ROWS && |HEAVY_MATRIX[rs[i]]| == HEAVY_COLUMNS
      && Dot(HEAVY_MATRIX[rs[i]], z, HEAVY_COLUMNS) == ZERO
    ensures z == Zeros(HEAVY_COLUMNS)
  {
    hide Add, Mul, EntryIs, Dot, H, NonZeros;
    var cs := NonZeros(z, |z|);
    NonZerosAre(z, |z|);
    PartRegular(rs[..|cs|], cs, z);
    forall c | 0 <= c < |z| ensures z[c] == ZERO {
      if c in cs {
        var i :| 0 <= i < |cs| && cs[i] == c;
        assert At(z, cs)[i] == z[c];
      }
    }
  }

  /** A square part of the heavy matrix takes only zero to zero. */
  lemma PartRegular(rs: seq<nat>, cs: seq<nat>, z: Vec)
    requires |rs| == |cs| && |z| == HEAVY_COLUMNS && cs == NonZeros(z, |z|)
    requires forall i :: 0 <= i < |rs| ==> rs[i] < HEAVY_ROWS
    requires forall i, j :: 0 <= i < j < |rs| ==> rs[i] != rs[j] && cs[i] != cs[j]
    requires forall i :: 0 <= i < |rs| ==>
      |HEAVY_MATRIX| == HEAVY_ROWS && |HEAVY_MATRIX[rs[i]]| == HEAVY_COLUMNS
      && Dot(HEAVY_MATRIX[rs[i]], z, HEAVY_COLUMNS) == ZERO
    ensures forall i :: 0 <= i < |cs| ==> At(z, cs)[i] == ZERO
  {
    hide Add, Mul, EntryIs, Dot, H, NonZeros, HEAVY_MATRIX, HEAVY_XS, HEAVY_YS;
    var k := |cs|;
    Parameters();
    var m := seq(k, i requires 0 <= i < k => At(HEAVY_MATRIX[rs[i]], cs));
    var xs, ys := At(HEAVY_XS, rs), At(HEAVY_YS, cs);
    forall i, j | 0 <= i < k && 0 <= j < k ensures EntryIs(m[i][j], xs[i], ys[j]) { HeavyIsCauchy(rs[i], cs[j]); }
    forall i | 0 <= i < k ensures Dot(m[i], At(z, cs), k) == ZERO { DotNonZeros(HEAVY_MATRIX[rs[i]], z, |z|); }
    Regular(m, xs, ys, At(z, cs));
  }
}

/** Rows over GF(256), dot products, and the in-place LU identity:
    what a row was = multipliers left in place times upper rows + what remains. */
module Linear {
  import opened GF256

  type Vec = seq<Byte>

  function Dot(u: Vec, x: Vec, k: nat): Byte
    requires k <= |u| && k <= |x|
    decreases k
  {
    if k == 0 then ZERO else Add(Dot(u, x, k - 1), Mul(u[k - 1], x[k - 1]))
  }

  function Zeros(n: nat): Vec {
    seq(n, _ => ZERO)
  }

  /** u + a * v */
  function AddScaled(u: Vec, a: Byte, v: Vec): (r: Vec)
    requires |u| == |v|
    ensures |r| == |u|
  {
    seq(|u|, c requires 0 <= c < |u| => Add(u[c], Mul(a, v[c])))
  }

  function AddVec(u: Vec, v: Vec): (r: Vec)
    requires |u| == |v|
    ensures |r| == |u|
  {
    seq(|u|, c requires 0 <= c < |u| => Add(u[c], v[c]))
  }

  /** The row with its first m entries cleared. */
  function Tail(row: Vec, m: nat): (r: Vec)
    ensures |r| == |row|
  {
    seq(|row|, c requires 0 <= c < |row| => if c >= m then row[c] else ZERO)
  }

  lemma {:induction false} DotAgree(u: Vec, v: Vec, x: Vec, k: nat)
    requires k <= |u| && k <= |v| && k <= |x|
    requires forall c :: 0 <= c < k ==> u[c] == v[c]
    ensures Dot(u, x, k) == Dot(v, x, k)
  {
    hide Add, Mul;
    if k > 0 { DotAgree(u, v, x, k - 1); }
  }

  lemma {:induction false} DotZero(u: Vec, x: Vec, k: nat)
    requires k <= |u| && k <= |x|
    requires forall c :: 0 <= c < k ==> u[c] == ZERO
    ensures Dot(u, x, k) == ZERO
  {
    hide Add, Mul;
    if k > 0 {
      DotZero(u, x, k - 1);
      MulZero(x[k - 1]);
      AddZero(ZERO);
    }
  }

  lemma {:induction false} DotAddScaled(u: Vec, a: Byte, v: Vec, x: Vec, k: nat)
    requires |u| == |v| && k <= |u| && k <= |x|
    ensures Dot(AddScaled(u, a, v), x, k) == Add(Dot(u, x, k), Mul(a, Dot(v, x, k)))
  {
    hide Add, Mul;
    if k == 0 {
      MulZero(a);
      AddZero(ZERO);
    } else {
      var i := k - 1;
      DotAddScaled(u, a, v, x, i);
      MulAddLeft(u[i], Mul(a, v[i]), x[i]);
      MulAssoc(a, v[i], x[i]);
      MulAddRight(a, Dot(v, x, i), Mul(v[i], x[i]));
      AddSwap(Dot(u, x, i), Mul(a, Dot(v, x, i)), Mul(u[i], x[i]), Mul(a, Mul(v[i], x[i])));
    }
  }

  lemma {:induction false} DotAddVec(u: Vec, v: Vec, x: Vec, k: nat)
    requires |u| == |v| && k <= |u| && k <= |x|
    ensures Dot(AddVec(u, v), x, k) == Add(Dot(u, x, k), Dot(v, x, k))
  {
    hide Add, Mul;
    if k == 0 {
      AddZero(ZERO);
    } else {
      var i := k - 1;
      DotAddVec(u, v, x, i);
      MulAddLeft(u[i], v[i], x[i]);
      AddSwap(Dot(u, x, i), Dot(v, x, i), Mul(u[i], x[i]), Mul(v[i], x[i]));
    }
  }

  // ---------- The LU identity ----------

  /** Sum over j < m of row[j] times upper row j, an upper row counting from its diagonal on. */
  function LuSum(row: Vec, upper: seq<Vec>, m: nat): (r: Vec)
    requires m <= |row| && m <= |upper|
    requires forall j :: 0 <= j < |upper| ==> |upper[j]| == |row|
    ensures |r| == |row|
  {
    if m == 0 then Zeros(|row|)
    else AddScaled(LuSum(row, upper, m - 1), row[m - 1], Tail(upper[m - 1], m - 1))
  }

  ghost predicate Shape(row: Vec, upper: seq<Vec>, m: nat) {
    && m <= |row| && m <= |upper|
    && forall j :: 0 <= j < |upper| ==> |upper[j]| == |row|
  }

  /** orig = (multipliers in row[..m]) * upper + (the rest of row) */
  ghost predicate LuRow(orig: Vec, row: Vec, upper: seq<Vec>, m: nat) {
    && Shape(row, upper, m)
    && orig == AddVec(LuSum(row, upper, m), Tail(row, m))
  }

  lemma {:induction false} LuSumAgree(row: Vec, row': Vec, upper: seq<Vec>, upper': seq<Vec>, m: nat)
    requires Shape(row, upper, m) && Shape(row', upper', m) && |row| == |row'|
    requires forall j :: 0 <= j < m ==> row[j] == row'[j] && upper[j] == upper'[j]
    ensures LuSum(row, upper, m) == LuSum(row', upper', m)
  {
    hide Add, Mul;
    if m > 0 { LuSumAgree(row, row', upper, upper', m - 1); }
  }

  /** row' is row with column k eliminated by piv and the multiplier left in its place. */
  ghost predicate Eliminated(row: Vec, piv: Vec, row': Vec, k: nat) {
    && |row'| == |row| == |piv| && k < |row|
    && (forall c :: 0 <= c < k ==> row'[c] == row[c])
    && row[k] == Mul(row'[k], piv[k])
    && (forall c :: k < c < |row| ==> row'[c] == Add(row[c], Mul(row'[k], piv[c])))
  }

  lemma NotNeeded(row: Vec, piv: Vec, k: nat)
    requires |row| == |piv| && k < |row| && row[k] == ZERO
    ensures Eliminated(row, piv, row, k)
  {
    hide Add, Mul;
    forall c | k <= c < |row| ensures row[c] == Add(row[c], Mul(row[k], piv[c])) && Mul(row[k], piv[c]) == ZERO {
      MulZero(piv[c]);
      AddZero(row[c]);
    }
  }

  /** One elimination keeps the identity, with one more upper row. */
  lemma LuStep(orig: Vec, row: Vec, piv: Vec, row': Vec, upper: seq<Vec>)
    requires LuRow(orig, row, upper, |upper|)
    requires Eliminated(row, piv, row', |upper|)
    ensures LuRow(orig, row', upper + [piv], |upper| + 1)
  {
    hide Add, Mul, LuSum;
    var k := |upper|;
    var upper' := upper + [piv];
    LuSumAgree(row, row', upper, upper', k);
    var s := LuSum(row, upper, k);
    assert LuSum(row', upper', k + 1) == AddScaled(s, row'[k], Tail(piv, k)) by { LuSumUnroll(row', upper', k); }
    forall c | 0 <= c < |row|
      ensures orig[c] == Add(LuSum(row', upper', k + 1)[c], Tail(row', k + 1)[c])
    {
      if c < k {
        MulZero(row'[k]);
        AddZero(s[c]);
      } else if c == k {
        AddZero(Add(s[c], row[k]));
      } else {
        var p := Mul(row'[k], piv[c]);
        AddComm(row[c], p);
        AddAssoc(s[c], p, Add(p, row[c]));
        AddCancel(p, row[c]);
      }
    }
    assert orig == AddVec(LuSum(row', upper', k + 1), Tail(row', k + 1));
  }

  lemma LuSumUnroll(row: Vec, upper: seq<Vec>, k: nat)
    requires Shape(row, upper, k + 1)
    ensures LuSum(row, upper, k + 1) == AddScaled(LuSum(row, upper, k), row[k], Tail(upper[k], k))
  {}

  lemma LuExtend(orig: Vec, row: Vec, upper: seq<Vec>, piv: Vec, m: nat)
    requires LuRow(orig, row, upper, m)
    requires |piv| == |row|
    ensures LuRow(orig, row, upper + [piv], m)
  {
    LuSumAgree(row, row, upper, upper + [piv], m);
  }

  lemma LuStart(row: Vec, upper: seq<Vec>, m: nat)
    requires Shape(row, upper, m)
    requires forall j :: 0 <= j < m ==> row[j] == ZERO
    ensures LuRow(row, row, upper, m)
    decreases m
  {
    hide Add, Mul, LuSum;
    LuSumZero(row, upper, m);
    forall c | 0 <= c < |row| ensures Add(ZERO, row[c]) == row[c] { AddZero(row[c]); }
    assert row == AddVec(LuSum(row, upper, m), Tail(row, m));
  }

  lemma {:induction false} LuSumZero(row: Vec, upper: seq<Vec>, m: nat)
    requires Shape(row, upper, m)
    requires forall j :: 0 <= j < m ==> row[j] == ZERO
    ensures LuSum(row, upper, m) == Zeros(|row|)
  {
    hide Add, Mul;
    if m > 0 {
      LuSumZero(row, upper, m - 1);
      var t := Tail(upper[m - 1], m - 1);
      forall c | 0 <= c < |row| ensures Add(ZERO, Mul(row[m - 1], t[c])) == ZERO { MulZero(t[c]); AddZero(ZERO); }
      assert LuSum(row, upper, m) == Zeros(|row|);
    }
  }
}

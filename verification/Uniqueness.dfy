/** What the rows held determine. A vector that the code and every row held take to zero can be added to any
    codeword unseen. When elimination stops there is one other than zero; when it does not stop there is none.
    Both depend on the ids of the rows alone. */
module Uniqueness {
  import opened GF256
  import opened Linear
  import opened Progress
  import opened Elimination
  import opened Triangulation
  import opened Triangular
  import opened Rows
  import opened PeelState
  import opened Sums
  import opened Diagonal
  import opened Dense
  import opened Equations
  import opened Meaning
  import opened Assembly
  import opened Solving
  import opened Ambiguity

  // ---------- Peeled rows for any GE columns ----------

  /** The first i peeled rows hold, and the columns solved by the others are zero so far. */
  ghost predicate PeeledTo(p: Plan, input: Vec, g: Vec, z: Vec, i: nat)
    requires Planned(p) && |input| == |p.solves|
  {
    && Assigns(p, z) && Ge(p, z) == g
    && (forall c :: c in p.position && i <= p.position[c] ==> c < p.n && z[c] == ZERO)
    && (forall q :: 0 <= q < |p.solves| && Peels(p, q) && PlaceOf(p, q) < i ==> RowHolds(p, q, input[q], z))
  }

  ghost function PlaceOf(p: Plan, q: nat): nat
    requires Planned(p) && q < |p.solves| && Peels(p, q)
  {
    PeelFacts(p, q);
    p.position[p.solves[q]]
  }

  /** The GE columns set, and nothing else. */
  ghost function Spread(p: Plan, g: Vec): (z: Vec)
    requires |g| == Width(p)
    ensures |z| == p.n + p.mixCount
  {
    seq(p.n + p.mixCount, c requires 0 <= c => if Find(GeMap(p), c) < Width(p) then g[Find(GeMap(p), c)] else ZERO)
  }

  lemma StartPeeled(p: Plan, input: Vec, g: Vec)
    requires Planned(p) && |input| == |p.solves| && |g| == Width(p)
    ensures PeeledTo(p, input, g, Spread(p, g), 0)
  {
    hide RowHolds, Ge;
    var z := Spread(p, g);
    GeMapFacts(p);
    GeIs(p, z);
    forall k | 0 <= k < Width(p) ensures Ge(p, z)[k] == g[k] { FindAt(GeMap(p), k); }
    assert Ge(p, z) == g;
    forall c | c in p.position ensures c < p.n && z[c] == ZERO {
      assert p.columnMarks[c].Peel?;
      assert Find(GeMap(p), c) == Width(p);
    }
  }

  /** The next peeled row gives its column. */
  ghost function NextValue(p: Plan, input: Vec, z: Vec, q: nat): Byte
    requires Planned(p) && |input| == |p.solves| && q < |p.solves| && Assigns(p, z)
  {
    RowWithin(p, q, z);
    Add(input[q], Add(SparseSum(p, q, z), MixSum(p, q, z)))
  }

  lemma NextPeeled(p: Plan, input: Vec, g: Vec, z: Vec, i: nat)
    requires Planned(p) && |input| == |p.solves| && PeeledTo(p, input, g, z, i) && i < |p.peels|
    ensures p.peels[i] < |p.solves| && p.solves[p.peels[i]] < p.n
    ensures PeeledTo(p, input, g, z[p.solves[p.peels[i]] := NextValue(p, input, z, p.peels[i])], i + 1)
  {
    hide Add, SumOf, RowHolds, Ge;
    PeelAt(p, i);
    var q := p.peels[i];
    var c := p.solves[q];
    PeelFacts(p, q);
    var z' := z[c := NextValue(p, input, z, q)];
    GeStays(p, z, c, z'[c]);
    forall r | 0 <= r < |p.solves| && Peels(p, r) && PlaceOf(p, r) < i + 1 ensures RowHolds(p, r, input[r], z') {
      PeelFacts(p, r);
      if r == q { RowGiven(p, input, z, q); } else { RowStays(p, input, z, r, c, z'[c], i); }
    }
    forall x | x in p.position && i + 1 <= p.position[x] ensures x < p.n && z'[x] == ZERO { assert x != c; }
  }

  lemma GeStays(p: Plan, z: Vec, c: nat, a: Byte)
    requires Planned(p) && Assigns(p, z) && c < p.n && p.columnMarks[c].Peel?
    ensures Ge(p, z[c := a]) == Ge(p, z)
  {
    hide Ge;
    GeMapFacts(p);
    GeIs(p, z);
    GeIs(p, z[c := a]);
  }

  lemma RowGiven(p: Plan, input: Vec, z: Vec, q: nat)
    requires Planned(p) && |input| == |p.solves| && q < |p.solves| && Peels(p, q) && Assigns(p, z)
    requires p.solves[q] < p.n && z[p.solves[q]] == ZERO
    ensures RowHolds(p, q, input[q], z[p.solves[q] := NextValue(p, input, z, q)])
  {
    hide Add, SumOf;
    var c, a := p.solves[q], NextValue(p, input, z, q);
    PeelFacts(p, q);
    RowWithin(p, q, z);
    RowWithin(p, q, z[c := a]);
    SumUpdate(p.columnsOf[q], z, c, a);
    MixStays(p, q, z, c, a);
    GivenAlgebra(SparseSum(p, q, z), MixSum(p, q, z), input[q]);
    AddZero(a);
  }

  lemma GivenAlgebra(s: Byte, m: Byte, v: Byte)
    ensures Add(Add(s, Add(v, Add(s, m))), m) == v
  {}

  lemma MixStays(p: Plan, q: nat, z: Vec, c: nat, a: Byte)
    requires Planned(p) && q < |p.solves| && Assigns(p, z) && c < p.n
    ensures Within(p.mixOf[q], |z|) && MixSum(p, q, z[c := a]) == MixSum(p, q, z)
  {
    hide SumOf, Add;
    RowWithin(p, q, z);
    assert RowPlanned(p, q);
    SumAgree(p.mixOf[q], z[c := a], z);
  }

  lemma RowStays(p: Plan, input: Vec, z: Vec, r: nat, c: nat, a: Byte, i: nat)
    requires Planned(p) && |input| == |p.solves| && r < |p.solves| && Peels(p, r) && Assigns(p, z)
      && RowHolds(p, r, input[r], z)
    requires c < p.n && c in p.position && p.position[c] == i && PlaceOf(p, r) < i
    ensures RowHolds(p, r, input[r], z[c := a])
  {
    hide Add, SumOf;
    PeelFacts(p, r);
    RowWithin(p, r, z);
    RowWithin(p, r, z[c := a]);
    assert RowPlanned(p, r);
    assert !Before(p.columnMarks, p.position, c, p.position[p.solves[r]]) && c != p.solves[r];
    SumUpdate(p.columnsOf[r], z, c, a);
    MixStays(p, r, z, c, a);
  }

  /** Whatever the GE columns are, the peeled rows can be made to hold. */
  lemma PeelExists(p: Plan, input: Vec, g: Vec) returns (z: Vec)
    requires Planned(p) && |input| == |p.solves| && |g| == Width(p)
    ensures PeelSolution(p, input, z) && Assigns(p, z) && Ge(p, z) == g
  {
    hide Planned, RowHolds, Ge, PeeledTo, NextValue;
    z := Spread(p, g);
    StartPeeled(p, input, g);
    var i := 0;
    while i < |p.peels|
      invariant 0 <= i <= |p.peels| && PeeledTo(p, input, g, z, i) && Assigns(p, z)
    {
      NextPeeled(p, input, g, z, i);
      z := z[p.solves[p.peels[i]] := NextValue(p, input, z, p.peels[i])];
      i := i + 1;
    }
    AllPeeledHold(p, input, g, z);
  }

  lemma AllPeeledHold(p: Plan, input: Vec, g: Vec, z: Vec)
    requires Planned(p) && |input| == |p.solves| && PeeledTo(p, input, g, z, |p.peels|)
    ensures PeelSolution(p, input, z) && Assigns(p, z) && Ge(p, z) == g
  {
    hide RowHolds, Ge;
    forall q | 0 <= q < |p.solves| && Peels(p, q) ensures RowHolds(p, q, input[q], z) { PeelFacts(p, q); }
  }

  // ---------- Equations add up ----------

  lemma {:induction false} DotSymmetric(u: Vec, v: Vec, n: nat)
    requires n <= |u| && n <= |v|
    ensures Dot(u, v, n) == Dot(v, u, n)
  {
    hide Add, Mul;
    if n > 0 {
      DotSymmetric(u, v, n - 1);
      MulComm(u[n - 1], v[n - 1]);
    }
  }

  lemma RowLeftSum(s: System, id: nat, a: Vec, b: Vec)
    requires ValidSystem(s) && |a| == |b| == s.Size()
    ensures RowLeft(s, id, AddVec(a, b)) == Add(RowLeft(s, id, a), RowLeft(s, id, b))
  {
    hide Add, SumOf, ValidCode;
    SumAdd(RowColumns(s.code, id), a, b);
    SumAdd(MixColumns(s.code, id), a, b);
    AddSwap(SumOf(RowColumns(s.code, id), a), SumOf(RowColumns(s.code, id), b), SumOf(MixColumns(s.code, id), a),
      SumOf(MixColumns(s.code, id), b));
  }

  lemma DotRight(o: Vec, a: Vec, b: Vec, n: nat)
    requires |a| == |b| && n <= |o| && n <= |a|
    ensures Dot(o, AddVec(a, b), n) == Add(Dot(o, a, n), Dot(o, b, n))
  {
    hide Add, Mul, Dot;
    DotSymmetric(o, AddVec(a, b), n);
    DotAddVec(a, b, o, n);
    DotSymmetric(o, a, n);
    DotSymmetric(o, b, n);
  }

  lemma DenseLeftSum(s: System, r: nat, a: Vec, b: Vec)
    requires ValidSystem(s) && |a| == |b| == s.Size() && r < s.dense
    ensures DenseLeft(s, r, AddVec(a, b)) == Add(DenseLeft(s, r, a), DenseLeft(s, r, b))
  {
    hide Add, Mul, Dot, BitDot, DenseSum, ValidCode;
    var z := AddVec(a, b);
    var n, d := s.code.n, s.dense;
    var k := WindowCount(n, d);
    assert z[..n] == AddVec(a[..n], b[..n]) && z[n..n + d] == AddVec(a[n..n + d], b[n..n + d]);
    DenseSumAdd(s.stream, d, k, r, a[..n], b[..n]);
    BitDotIs(s.block[r], z[n..n + d]);
    BitDotIs(s.block[r], a[n..n + d]);
    BitDotIs(s.block[r], b[n..n + d]);
    DotRight(BitsRow(s.block[r]), a[n..n + d], b[n..n + d], d);
    AddSwap(DenseSum(s.stream, d, k, r, a[..n]), DenseSum(s.stream, d, k, r, b[..n]), BitDot(s.block[r], a[n..n + d]),
      BitDot(s.block[r], b[n..n + d]));
  }

  lemma HeavyLeftSum(s: System, h: nat, a: Vec, b: Vec)
    requires ValidSystem(s) && |a| == |b| == s.Size() && h < HEAVY_ROWS
    ensures HeavyLeft(s, h, AddVec(a, b)) == Add(HeavyLeft(s, h, a), HeavyLeft(s, h, b))
  {
    hide Add, Mul, Dot, ValidCode;
    var from := s.Size() - s.HeavyCount();
    assert AddVec(a, b)[from..] == AddVec(a[from..], b[from..]);
    DotRight(Heavy(s, h), a[from..], b[from..], s.HeavyCount());
  }

  lemma LeftSum(s: System, k: Kind, a: Vec, b: Vec)
    requires ValidSystem(s) && |a| == |b| == s.Size() && KindOk(s, k)
    ensures Left(s, k, AddVec(a, b)) == Add(Left(s, k, a), Left(s, k, b))
  {
    hide RowLeft, DenseLeft, HeavyLeft, Add, ValidSystem;
    match k
    case DenseKind(r) => DenseLeftSum(s, r, a, b);
    case SparseKind(id) => RowLeftSum(s, id, a, b);
    case HeavyKind(h) => HeavyLeftSum(s, h, a, b);
  }

  /** Codewords add up to codewords. */
  lemma CodewordSum(s: System, a: Vec, b: Vec)
    requires ValidSystem(s) && Codeword(s, a) && Codeword(s, b)
    ensures |a| == |b| == s.Size() && Codeword(s, AddVec(a, b))
  {
    hide DenseLeft, HeavyLeft, Add, ValidSystem;
    forall r | 0 <= r < s.dense ensures DenseLeft(s, r, AddVec(a, b)) == ZERO {
      DenseLeftSum(s, r, a, b);
      AddZero(ZERO);
    }
    forall h | 0 <= h < HEAVY_ROWS ensures HeavyLeft(s, h, AddVec(a, b)) == ZERO {
      HeavyLeftSum(s, h, a, b);
      AddZero(ZERO);
    }
  }

  // ---------- What is determined ----------

  /** The code and all rows with these ids take w to zero. */
  ghost predicate Silent(s: System, ids: seq<nat>, w: Vec)
    requires ValidSystem(s)
  {
    |w| == s.Size() && Codeword(s, w) && forall q :: 0 <= q < |ids| ==> RowLeft(s, ids[q], w) == ZERO
  }

  /** Rows with these ids are enough: they have the same values in no two codewords. */
  ghost predicate Determines(s: System, ids: seq<nat>)
    requires ValidSystem(s)
  {
    forall w: Vec :: Silent(s, ids, w) ==> w == Zeros(s.Size())
  }

  /** Two codewords with the same values in these rows. */
  ghost predicate SameRows(s: System, ids: seq<nat>, z: Vec, z': Vec)
    requires ValidSystem(s)
  {
    && |z| == |z'| == s.Size() && Codeword(s, z) && Codeword(s, z')
    && (forall q :: 0 <= q < |ids| ==> RowLeft(s, ids[q], z) == RowLeft(s, ids[q], z'))
  }

  /** They differ by a vector that is taken to zero. */
  lemma Difference(s: System, ids: seq<nat>, z: Vec, z': Vec)
    requires ValidSystem(s) && SameRows(s, ids, z, z')
    ensures |z| == |z'| && Silent(s, ids, AddVec(z, z')) && (AddVec(z, z') == Zeros(s.Size()) ==> z == z')
  {
    hide RowLeft, Codeword, ValidSystem, Add;
    CodewordSum(s, z, z');
    forall q | 0 <= q < |ids| ensures RowLeft(s, ids[q], AddVec(z, z')) == ZERO {
      RowLeftSum(s, ids[q], z, z');
      ZeroSum(RowLeft(s, ids[q], z), RowLeft(s, ids[q], z'));
    }
    if AddVec(z, z') == Zeros(s.Size()) {
      forall c | 0 <= c < |z| ensures z[c] == z'[c] {
        assert AddVec(z, z')[c] == Zeros(s.Size())[c] == ZERO;
        ZeroSum(z[c], z'[c]);
      }
    }
  }

  lemma ZeroSum(a: Byte, b: Byte)
    ensures Add(a, b) == ZERO <==> a == b
  {}

  /** Rows determine the codeword exactly when no two codewords have the same rows. */
  lemma DeterminesMeans(s: System, ids: seq<nat>)
    requires ValidSystem(s)
    ensures Determines(s, ids) <==> forall z: Vec, z': Vec :: SameRows(s, ids, z, z') ==> z == z'
  {
    hide RowLeft, Codeword, ValidSystem, Add;
    if Determines(s, ids) {
      forall z: Vec, z': Vec | SameRows(s, ids, z, z') ensures z == z' { Difference(s, ids, z, z'); }
    } else {
      var w: Vec :| Silent(s, ids, w) && w != Zeros(s.Size());
      ZerosSilent(s, ids);
      assert SameRows(s, ids, w, Zeros(s.Size()));
    }
  }

  lemma ZerosSilent(s: System, ids: seq<nat>)
    requires ValidSystem(s)
    ensures Silent(s, ids, Zeros(s.Size()))
  {
    hide DenseLeft, HeavyLeft, RowLeft, Add, ValidSystem;
    var o := Zeros(s.Size());
    assert AddVec(o, o) == o by { AddZero(ZERO); }
    forall r | 0 <= r < s.dense ensures DenseLeft(s, r, o) == ZERO {
      DenseLeftSum(s, r, o, o);
      AddZero(DenseLeft(s, r, o));
    }
    forall h | 0 <= h < HEAVY_ROWS ensures HeavyLeft(s, h, o) == ZERO {
      HeavyLeftSum(s, h, o, o);
      AddZero(HeavyLeft(s, h, o));
    }
    forall q | 0 <= q < |ids| ensures RowLeft(s, ids[q], o) == ZERO {
      RowLeftSum(s, ids[q], o, o);
      AddZero(RowLeft(s, ids[q], o));
    }
  }

  // ---------- Stopped: not determined ----------

  /** Every GE row in use is listed, or a heavy row not listed yet. */
  lemma UsedIsListed(v: Solver, r: nat)
    requires v.Compressed() && v.elim.Valid() && v.InUse(r)
    ensures r in v.elim.pivots || (!v.elim.inserted && r >= v.LightRows() + v.extraCount)
  {
    hide Solver.Compressed, Sound, NoneIn;
    assert v.elim.lightRows == v.LightRows() && v.elim.extraRows == v.extraCount by { SizesAre(v); }
  }

  lemma SizesAre(v: Solver)
    requires v.Compressed()
    ensures v.elim.lightRows == v.LightRows() && v.elim.extraRows == v.extraCount
      && v.elim.columns == v.Columns() == Width(v.plan)
    ensures v.Columns() == v.LightRows() + HEAVY_ROWS && Planned(v.plan)
      && |v.peelInput| == |v.plan.solves| == v.N() == v.plan.n
    ensures ValidSystem(v.system) && v.system.Size() == v.N() + v.system.Mix() && v.plan.mixCount == v.system.Mix()
  {
    v.GeCells();
  }

  /** Each of them applies to the vector as zero. */
  lemma UsedVanishes(v: Solver, x: Vec, r: nat)
    requires v.Valid() && v.elim.Stuck() && Kernel(v.elim.pivots, v.elim.orig, x, v.Columns())
    requires forall j :: |v.elim.upper| < j < v.Columns() ==> x[j] == ZERO
    requires r < v.LightRows() + v.extraCount + HEAVY_ROWS && v.InUse(r)
    ensures r < |v.elim.orig| && |v.elim.orig[r]| == v.Columns() && Dot(v.elim.orig[r], x, v.Columns()) == ZERO
  {
    hide Solver.Compressed, Solver.RowMeant, Solver.RowFixed, Dot, NoneIn, HasAll, HasFrom, Factoring, UsedAgree,
      Distinct, ZeroAt, BitsRow, HeavyRow;
    SizesAre(v);
    UsedIsListed(v, r);
    if r in v.elim.pivots {
      var p :| 0 <= p < |v.elim.pivots| && v.elim.pivots[p] == r;
    } else {
      HeavyVanishes(v.elim.heavy[r - v.elim.lightRows], v.elim.firstHeavyColumn, x, |v.elim.upper|, v.Columns());
    }
  }

  /** Two solutions of the peeled rows whose GE columns differ by such a vector have the same left sides. */
  lemma SameLeft(v: Solver, z: Vec, z': Vec, x: Vec, r: nat)
    requires v.Valid() && v.InUse(r) && r < v.LightRows() + v.extraCount + HEAVY_ROWS && |z| == |z'| == v.system.Size()
    requires Planned(v.plan) && |v.peelInput| == |v.plan.solves|
    requires PeelSolution(v.plan, v.peelInput, z) && PeelSolution(v.plan, v.peelInput, z')
    requires Assigns(v.plan, z) && Assigns(v.plan, z') && |x| == v.Columns() == Width(v.plan)
    requires Ge(v.plan, z') == AddVec(Ge(v.plan, z), x)
    requires r < |v.elim.orig| && |v.elim.orig[r]| == v.Columns() && Dot(v.elim.orig[r], x, v.Columns()) == ZERO
    ensures Left(v.system, v.KindOf(r), z') == Left(v.system, v.KindOf(r), z)
  {
    hide Solver.Compressed, Solver.RowFixed, Dot, Ge, PeelSolution, Planned, Left, TempOf, Add, Sound, Eliminator.Ready;
    SizesAre(v);
    assert v.RowMeant(r);
    DotRight(v.elim.orig[r], Ge(v.plan, z), x, v.Columns());
    AddZero(Dot(v.elim.orig[r], Ge(v.plan, z), v.Columns()));
    var t := TempOf(v.system, v.KindOf(r), v.Temps());
    v.SameSum(Left(v.system, v.KindOf(r), z'), Left(v.system, v.KindOf(r), z), t);
  }

  lemma HeldSizes(v: Solver)
    requires v.Valid()
    ensures ValidSystem(v.system) && |v.ids| == |v.input| == v.N() + v.elim.extraUsed
      && v.elim.extraUsed <= v.extraCount
  {
    hide Solver.Compressed, Solver.RowMeant, Solver.RowFixed, Sound, NoneIn, HasAll;
    SizesAre(v);
  }

  /** The equation of a row held that was not peeled has a GE row. */
  lemma RowHasEquation(v: Solver, q: nat) returns (r: nat)
    requires v.Valid() && q < |v.ids| && (q < v.N() ==> q < |v.plan.solves| && !Peels(v.plan, q))
    ensures v.InUse(r) && r < v.LightRows() + v.extraCount && v.KindOf(r) == SparseKind(v.ids[q])
  {
    hide Solver.RowMeant, Solver.RowFixed, Sound, NoneIn, HasAll, Fit, Done, UsesFinal, ColumnsKnown, Linked;
    HeldSizes(v);
    if q < v.N() {
      var k :| 0 <= k < |v.defers| && v.defers[k] == q;
      r := v.system.dense + k;
    } else {
      r := v.LightRows() + (q - v.N());
    }
    v.RowOf(r);
  }

  /** Both solve the peeled rows, and every equation in use has the same value in both. */
  ghost predicate Alike(v: Solver, z: Vec, z': Vec)
    requires v.Valid() && Planned(v.plan) && |v.peelInput| == |v.plan.solves| && ValidSystem(v.system)
    reads v, v.elim
  {
    && |z| == |z'| == v.system.Size() && PeelSolution(v.plan, v.peelInput, z) && PeelSolution(v.plan, v.peelInput, z')
    && (forall r :: 0 <= r < v.LightRows() + v.extraCount + HEAVY_ROWS && v.InUse(r) ==>
          Left(v.system, v.KindOf(r), z') == Left(v.system, v.KindOf(r), z))
  }

  lemma SameRow(v: Solver, z: Vec, z': Vec, q: nat)
    requires v.Valid() && Planned(v.plan) && |v.peelInput| == |v.plan.solves| && ValidSystem(v.system)
    requires Alike(v, z, z') && q < |v.ids|
    ensures RowLeft(v.system, v.ids[q], z') == RowLeft(v.system, v.ids[q], z)
  {
    hide Solver.Compressed, Solver.RowMeant, Solver.RowFixed, Sound, NoneIn, HasAll, RowHolds, RowLeft, Planned,
      DenseLeft, HeavyLeft, Codeword;
    SizesAre(v);
    if q < v.N() && Peels(v.plan, q) {
      v.RowIsPlanned(q, z);
      v.RowIsPlanned(q, z');
      v.PeelSolutionIs(z);
      v.PeelSolutionIs(z');
    } else {
      var r := RowHasEquation(v, q);
      assert Left(v.system, v.KindOf(r), z') == RowLeft(v.system, v.ids[q], z');
      assert Left(v.system, v.KindOf(r), z) == RowLeft(v.system, v.ids[q], z);
    }
  }

  lemma DenseSame(v: Solver, z: Vec, z': Vec, r: nat)
    requires v.Valid() && ValidSystem(v.system) && |z| == |z'| == v.system.Size() && r < v.system.dense
    requires v.InUse(r) ==> Left(v.system, v.KindOf(r), z') == Left(v.system, v.KindOf(r), z)
    ensures DenseLeft(v.system, r, z') == DenseLeft(v.system, r, z)
  {
    hide Solver.Compressed, Solver.RowMeant, Solver.RowFixed, Sound, NoneIn, HasAll, DenseLeft, HeavyLeft, RowLeft;
    assert v.InUse(r) && v.KindOf(r) == DenseKind(r);
  }

  lemma HeavySame(v: Solver, z: Vec, z': Vec, h: nat)
    requires v.Valid() && ValidSystem(v.system) && |z| == |z'| == v.system.Size() && h < HEAVY_ROWS
    requires var r := v.LightRows() + v.extraCount + h; v.InUse(r) ==>
      Left(v.system, v.KindOf(r), z') == Left(v.system, v.KindOf(r), z)
    ensures HeavyLeft(v.system, h, z') == HeavyLeft(v.system, h, z)
  {
    hide Solver.Compressed, Solver.RowMeant, Solver.RowFixed, Sound, NoneIn, HasAll, DenseLeft, HeavyLeft, RowLeft;
    HeldSizes(v);
    var r := v.LightRows() + v.extraCount + h;
    assert v.InUse(r) && v.KindOf(r) == HeavyKind(h);
  }

  /** So the code and the rows held take their sum to zero. */
  lemma AlikeSilent(v: Solver, z: Vec, z': Vec)
    requires v.Valid() && Planned(v.plan) && |v.peelInput| == |v.plan.solves| && ValidSystem(v.system)
    requires Alike(v, z, z')
    ensures Silent(v.system, v.ids, AddVec(z, z'))
  {
    hide Solver.Compressed, Solver.RowMeant, Solver.RowFixed, Sound, NoneIn, HasAll, RowHolds, RowLeft, Planned,
      DenseLeft, HeavyLeft, PeelSolution, Add;
    HeldSizes(v);
    var s, w := v.system, AddVec(z, z');
    forall r | 0 <= r < s.dense ensures DenseLeft(s, r, w) == ZERO {
      DenseSame(v, z, z', r);
      DenseLeftSum(s, r, z, z');
      AddZero(DenseLeft(s, r, z));
    }
    forall h | 0 <= h < HEAVY_ROWS ensures HeavyLeft(s, h, w) == ZERO {
      HeavySame(v, z, z', h);
      HeavyLeftSum(s, h, z, z');
      AddZero(HeavyLeft(s, h, z));
    }
    forall q | 0 <= q < |v.ids| ensures RowLeft(s, v.ids[q], w) == ZERO {
      SameRow(v, z, z', q);
      RowLeftSum(s, v.ids[q], z, z');
      AddZero(RowLeft(s, v.ids[q], z));
    }
  }

  /** When the search has stopped, the rows held do not determine the codeword. */
  lemma StoppedLeaves(v: Solver) returns (w: Vec)
    requires v.Valid() && v.elim.Stuck() && ValidSystem(v.system)
    ensures Silent(v.system, v.ids, w) && w != Zeros(v.system.Size())
  {
    hide Solver.Compressed, Solver.RowMeant, Solver.RowFixed, Sound, NoneIn, HasAll, HasFrom, PeelSolution, Planned, Ge,
      Left, Kernel, ZeroAt, Silent;
    SizesAre(v);
    var x := StoppedKernel(v.elim.M(), v.elim.pivots, v.elim.orig, v.elim.upper);
    KernelSize(v.elim.pivots, v.elim.orig, x, v.Columns());
    var o := Zeros(v.Columns());
    var z := PeelExists(v.plan, v.peelInput, o);
    var z' := PeelExists(v.plan, v.peelInput, AddVec(o, x));
    forall r | 0 <= r < v.LightRows() + v.extraCount + HEAVY_ROWS && v.InUse(r)
      ensures Left(v.system, v.KindOf(r), z') == Left(v.system, v.KindOf(r), z)
    {
      UsedVanishes(v, x, r);
      SameLeft(v, z, z', x, r);
    }
    AlikeSilent(v, z, z');
    w := AddVec(z, z');
    var k := |v.elim.upper|;
    assert AddVec(o, x)[k] == Add(o[k], ONE) != o[k] by { OneMore(o[k]); }
    SumNotZero(z, z');
  }

  lemma SumNotZero(z: Vec, z': Vec)
    requires |z| == |z'| && z != z'
    ensures AddVec(z, z') != Zeros(|z|)
  {
    hide Add;
    var c :| 0 <= c < |z| && z[c] != z'[c];
    ZeroSum(z[c], z'[c]);
    assert Zeros(|z|)[c] == ZERO;
  }

  lemma OneMore(a: Byte)
    ensures Add(a, ONE) != a
  {}

  lemma KernelSize(list: seq<nat>, orig: seq<Vec>, x: Vec, n: nat)
    requires Kernel(list, orig, x, n)
    ensures |x| == n
  {}

  // ---------- Complete: determined ----------

  /** What the code and the rows held take to zero can be added to a solution of the peeled rows. */
  lemma SilentAdded(v: Solver, z: Vec, w: Vec)
    requires v.Valid() && Planned(v.plan) && |v.peelInput| == |v.plan.solves| && ValidSystem(v.system)
    requires |z| == v.system.Size() && PeelSolution(v.plan, v.peelInput, z) && Silent(v.system, v.ids, w)
    ensures Alike(v, z, AddVec(z, w))
  {
    hide Solver.Compressed, Solver.RowMeant, Solver.RowFixed, Sound, NoneIn, HasAll, HasFrom, RowHolds, RowLeft,
      Planned,
      Codeword, Left, Add, PeelSolution;
    SizesAre(v);
    HeldSizes(v);
    var z' := AddVec(z, w);
    v.Widths(z);
    v.Widths(z');
    v.PeelSolutionIs(z);
    forall q | 0 <= q < |v.plan.solves| && Peels(v.plan, q) ensures RowHolds(v.plan, q, v.peelInput[q], z') {
      v.RowIsPlanned(q, z);
      v.RowIsPlanned(q, z');
      RowLeftSum(v.system, v.ids[q], z, w);
      AddZero(RowLeft(v.system, v.ids[q], z));
    }
    v.PeelSolutionIs(z');
    forall r | 0 <= r < v.LightRows() + v.extraCount + HEAVY_ROWS && v.InUse(r)
      ensures Left(v.system, v.KindOf(r), z') == Left(v.system, v.KindOf(r), z)
    {
      SilentLeft(v, w, r);
      LeftSum(v.system, v.KindOf(r), z, w);
      AddZero(Left(v.system, v.KindOf(r), z));
    }
  }

  lemma SilentSize(s: System, ids: seq<nat>, w: Vec)
    requires ValidSystem(s) && Silent(s, ids, w)
    ensures |w| == s.Size()
  {}

  lemma SilentLeft(v: Solver, w: Vec, r: nat)
    requires v.Valid() && ValidSystem(v.system) && v.InUse(r) && r < v.LightRows() + v.extraCount + HEAVY_ROWS
    requires Silent(v.system, v.ids, w)
    ensures Left(v.system, v.KindOf(r), w) == ZERO
  {
    hide Solver.Compressed, Solver.RowMeant, Solver.RowFixed, Sound, NoneIn, HasAll, HasFrom, DenseLeft, HeavyLeft,
      RowLeft;
    HeldSizes(v);
    SizesAre(v);
    if v.system.dense <= r < v.LightRows() + v.elim.extraUsed { v.RowOf(r); }
  }

  /** When every pivot is found, the rows held determine the codeword. */
  lemma CompleteDetermines(v: Solver)
    requires v.Valid() && v.elim.Complete() && ValidSystem(v.system)
    ensures Determines(v.system, v.ids)
  {
    hide Solver.Compressed, Solver.RowMeant, Solver.RowFixed, Sound, NoneIn, HasAll, HasFrom, PeelSolution, Planned, Ge,
      Silent, Add;
    SizesAre(v);
    var z := PeelExists(v.plan, v.peelInput, Zeros(v.Columns()));
    forall w: Vec | Silent(v.system, v.ids, w) ensures w == Zeros(v.system.Size()) {
      assert |w| == v.system.Size() by { SilentSize(v.system, v.ids, w); }
      SilentAdded(v, z, w);
      AlikeSame(v, z, AddVec(z, w));
      forall c | 0 <= c < |w| ensures w[c] == ZERO {
        assert AddVec(z, w)[c] == z[c];
        AddCancel(z[c], w[c]);
        AddZero(z[c]);
      }
    }
  }

  function Applied(rows: seq<Vec>, x: Vec, n: nat): (b: Vec)
    requires |rows| == |x| == n && forall i :: 0 <= i < n ==> |rows[i]| == n
    ensures Solution(rows, b, x, n)
  {
    seq(n, i requires 0 <= i < n => Dot(rows[i], x, n))
  }

  /** Then two solutions with the same left sides are the same. */
  lemma AlikeSame(v: Solver, z: Vec, z': Vec)
    requires v.Valid() && v.elim.Complete() && ValidSystem(v.system)
    requires Planned(v.plan) && |v.peelInput| == |v.plan.solves| && Alike(v, z, z')
    ensures z == z'
  {
    hide Solver.Valid, Eliminator.Complete, PeelSolution, Planned, Ge, Dot, Factored, Left, ValidSystem;
    AlikeSizes(v, z, z');
    var n, rows := v.Columns(), v.Chosen();
    v.ChosenFactored();
    forall i | 0 <= i < n ensures |rows[i]| == n && Dot(rows[i], Ge(v.plan, z), n) == Dot(rows[i], Ge(v.plan, z'), n) {
      SameDot(v, z, z', i);
    }
    var b := Applied(rows, Ge(v.plan, z), n);
    FactoredOnce(rows, v.elim.upper, b, Ge(v.plan, z), Ge(v.plan, z'), n);
    PeelUnique(v.plan, v.peelInput, z, z');
  }

  lemma AlikeSizes(v: Solver, z: Vec, z': Vec)
    requires v.Valid() && v.elim.Complete() && |z| == |z'| == v.system.Size()
    ensures v.Compressed() && v.elim.Ready() && Assigns(v.plan, z) && Assigns(v.plan, z') && Planned(v.plan)
    ensures Width(v.plan) == v.Columns()
  {
    hide Solver.Compressed, Solver.RowMeant, Solver.RowFixed, Sound, NoneIn, HasAll, HasFrom, PeelSolution, Planned;
    v.Widths(z);
    v.Widths(z');
  }

  lemma SameDot(v: Solver, z: Vec, z': Vec, i: nat)
    requires v.Valid() && v.elim.Complete() && ValidSystem(v.system) && i < v.Columns()
    requires Planned(v.plan) && |v.peelInput| == |v.plan.solves| && Alike(v, z, z')
    ensures Assigns(v.plan, z) && Assigns(v.plan, z') && |v.Chosen()[i]| == v.Columns() == Width(v.plan)
    ensures Dot(v.Chosen()[i], Ge(v.plan, z), v.Columns()) == Dot(v.Chosen()[i], Ge(v.plan, z'), v.Columns())
  {
    hide Solver.Compressed, Solver.RowFixed, Sound, NoneIn, HasAll, HasFrom, PeelSolution, Planned, Ge, Dot, Left, Add,
      TempOf;
    SizesAre(v);
    v.Widths(z);
    v.Widths(z');
    v.PivotBounds();
    v.PivotInUse(i);
    assert v.RowMeant(v.elim.pivots[i]);
  }

  // ---------- Codewords with the rows held ----------

  /** z satisfies the code and every row held. */
  ghost predicate Consistent(v: Solver, z: Vec)
    requires ValidSystem(v.system) && |v.ids| == |v.input|
    reads v
  {
    |z| == v.system.Size() && Codeword(v.system, z) && v.RowsHold(z)
  }

  /** When the search has stopped, no codeword is the only one with the rows held. */
  lemma StoppedAmbiguous(v: Solver, z: Vec) returns (z': Vec)
    requires v.Valid() && v.elim.Stuck() && ValidSystem(v.system) && |v.ids| == |v.input| && Consistent(v, z)
    ensures Consistent(v, z') && z' != z
  {
    hide Solver.Valid, Eliminator.Stuck, RowLeft, Codeword, ValidSystem, Add;
    var w := StoppedLeaves(v);
    z' := AddVec(z, w);
    CodewordSum(v.system, z, w);
    forall q | 0 <= q < |v.ids| ensures RowLeft(v.system, v.ids[q], z') == RowLeft(v.system, v.ids[q], z) {
      RowLeftSum(v.system, v.ids[q], z, w);
      AddZero(RowLeft(v.system, v.ids[q], z));
    }
    var c :| 0 <= c < |w| && w[c] != ZERO;
    AddCancel(z[c], w[c]);
    AddZero(z[c]);
  }

  /** When every pivot is found, at most one codeword has the rows held. */
  lemma CompleteUnique(v: Solver, z: Vec, z': Vec)
    requires v.Valid() && v.elim.Complete() && ValidSystem(v.system) && |v.ids| == |v.input| && Consistent(v, z)
      && Consistent(v, z')
    ensures z == z'
  {
    hide Solver.Valid, Eliminator.Complete, RowLeft, Codeword, ValidSystem;
    CompleteDetermines(v);
    assert SameRows(v.system, v.ids, z, z');
    Difference(v.system, v.ids, z, z');
  }
}

/** What each GE row says about the recovery blocks: in every solution of the peeled rows, the row
    applied to the GE columns is its original equation plus the temporary blocks of the peeled
    columns that occur in it. */
module Meaning {
  import opened GF256
  import opened Linear
  import opened Elimination
  import opened Rows
  import opened PeelState
  import opened Sums
  import opened Diagonal
  import opened Dense
  import opened Equations
  import opened Assembly

  datatype Kind = DenseKind(r: nat) | SparseKind(id: nat) | HeavyKind(h: nat)

  ghost predicate KindOk(s: System, k: Kind) {
    match k
    case DenseKind(r) => r < s.dense
    case SparseKind(_) => true
    case HeavyKind(h) => h < HEAVY_ROWS
  }

  /** The left side of an equation of the code. */
  ghost function Left(s: System, k: Kind, z: Vec): Byte
    requires ValidSystem(s) && |z| == s.Size() && KindOk(s, k)
  {
    match k
    case DenseKind(r) => DenseLeft(s, r, z)
    case SparseKind(id) => RowLeft(s, id, z)
    case HeavyKind(h) => HeavyLeft(s, h, z)
  }

  /** The temporary blocks that occur in it. */
  ghost function TempOf(s: System, k: Kind, temps: Vec): Byte
    requires ValidSystem(s) && |temps| == s.code.n && KindOk(s, k)
  {
    match k
    case DenseKind(r) => DenseSum(s.stream, s.dense, WindowCount(s.code.n, s.dense), r, temps)
    case SparseKind(id) => SumOf(RowColumns(s.code, id), temps)
    case HeavyKind(h) => ZERO
  }

  ghost predicate Fit(s: System, p: Plan, input: Vec) {
    && ValidSystem(s) && Planned(p) && p.n == s.code.n && p.mixCount == s.Mix() && |input| == |p.solves|
  }

  ghost predicate Meant(s: System, p: Plan, input: Vec, o: Vec, k: Kind, temps: Vec)
    requires Fit(s, p, input)
  {
    && |o| == Width(p) && |temps| == p.n && KindOk(s, k)
    && (forall z: Vec :: PeelSolution(p, input, z) ==>
          Dot(o, Ge(p, z), Width(p)) == Add(Left(s, k, z), TempOf(s, k, temps)))
  }

  /** The temporary blocks when all peeled rows are done. */
  ghost function AllTemps(p: Plan, temp: Vec): (w: Vec)
    requires p.n <= |temp|
    ensures |w| == p.n
  {
    Temps(p, |p.peels|, temp)
  }

  lemma RestIsTemps(p: Plan, temp: Vec, z: Vec)
    requires Planned(p) && Assigns(p, z) && p.n <= |temp|
    ensures Rest(p, |p.peels|, temp, z) == AllTemps(p, temp)
  {
    var a, b := Rest(p, |p.peels|, temp, z), AllTemps(p, temp);
    forall c | 0 <= c < p.n ensures a[c] == b[c] {
      if p.columnMarks[c].Peel? { assert c in p.position; }
      if c in p.position { assert p.columnMarks[c].Peel?; }
    }
  }

  ghost predicate Done(p: Plan, compress: seq<Bits>, temp: Vec, input: Vec) {
    Planned(p) && |input| == |p.solves| && Fits(p, compress, temp) && MeansAll(p, |p.peels|, compress, temp, input)
  }

  lemma DeferredMeans(s: System, p: Plan, compress: seq<Bits>, temp: Vec, input: Vec, q: nat, id: nat)
    requires Fit(s, p, input) && Done(p, compress, temp, input) && q < |p.solves| && !Peels(p, q)
    requires p.columnsOf[q] == RowColumns(s.code, id) && p.mixOf[q] == MixColumns(s.code, id)
    ensures Meant(s, p, input, BitsRow(compress[q]), SparseKind(id), AllTemps(p, temp))
  {
    hide Add, SumOf, Dot, RowColumns, MixColumns, Ge, BitsRow, AllTemps;
    forall z: Vec | PeelSolution(p, input, z)
      ensures Dot(BitsRow(compress[q]), Ge(p, z), Width(p))
        == Add(Left(s, SparseKind(id), z), TempOf(s, SparseKind(id), AllTemps(p, temp)))
    {
      assert Means(p, |p.peels|, compress, temp, z);
      assert Waits(p, |p.peels|, q) && RowMeans(p, |p.peels|, compress, temp, z, q);
      RestIsTemps(p, temp, z);
      RowWithin(p, q, z);
      var t := SumOf(RowColumns(s.code, id), AllTemps(p, temp));
      AddCancel(t, BitDot(compress[q], Ge(p, z)));
    }
  }

  /** The union over each column after compression. */
  ghost predicate UsesFinal(p: Plan, uses: seq<Use>) {
    && |uses| == p.n == |p.columnMarks|
    && (forall c :: 0 <= c < p.n ==> UseFinal(p, uses[c], c))
  }

  ghost predicate UseFinal(p: Plan, use: Use, c: nat)
    requires c < |p.columnMarks|
  {
    if p.columnMarks[c].Peel? then c in p.position && p.position[c] < |p.peels|
      && use == SolvedBy(p.peels[p.position[c]])
    else use.GEColumn? && use.column < |p.deferColumns| && p.deferColumns[use.column] == c
  }

  lemma UsesKnown(p: Plan, uses: seq<Use>, compress: seq<Bits>, temp: Vec)
    requires Planned(p) && UsesFinal(p, uses) && Fits(p, compress, temp) && |p.solves| == p.n
    ensures ColumnsKnown(p.columnMarks, uses, compress, p.n, Width(p))
  {
    forall c | 0 <= c < p.n ensures ColumnKnown(p.columnMarks, uses, p.n, Width(p), c) {
      assert UseFinal(p, uses[c], c);
      if p.columnMarks[c].Peel? { PeelAt(p, p.position[c]); }
    }
  }

  /** What stands for a column is its value plus its temporary block. */
  lemma SourceMeans(p: Plan, uses: seq<Use>, compress: seq<Bits>, temp: Vec, input: Vec, z: Vec, c: nat)
    requires Done(p, compress, temp, input) && UsesFinal(p, uses) && |p.solves| == p.n
    requires PeelSolution(p, input, z) && c < p.n
    requires ColumnsKnown(p.columnMarks, uses, compress, p.n, Width(p))
    ensures BitDot(SourceOf(p.columnMarks, uses, compress, p.n, Width(p), c), Ge(p, z)) ==
      Add(z[c], AllTemps(p, temp)[c])
  {
    hide Add, SumOf, Dot;
    assert UseFinal(p, uses[c], c) && Means(p, |p.peels|, compress, temp, z);
    var y := Ge(p, z);
    if p.columnMarks[c].Peel? {
      var i := p.position[c];
      var q := p.peels[i];
      PeelAt(p, i);
      assert p.solves[q] == c;
      assert !Waits(p, |p.peels|, q) && ColumnMeans(p, compress, temp, z, q);
      AddComm(z[c], temp[c]);
      AddCancel(temp[c], BitDot(compress[q], y));
    } else {
      var k := uses[c].column;
      assert NoBits(Width(p))[k := true] == Flip(NoBits(Width(p)), k);
      BitDotFlip(NoBits(Width(p)), k, y);
      BitDotNone(Width(p), y);
      AddZero(z[c]);
      assert !Solved(p, |p.peels|, c);
    }
  }

  /** The temporary blocks a deferred column has none of. */
  lemma SourcesMean(p: Plan, uses: seq<Use>, compress: seq<Bits>, temp: Vec, input: Vec, z: Vec, dots: Vec)
    requires Done(p, compress, temp, input) && UsesFinal(p, uses) && |p.solves| == p.n
    requires PeelSolution(p, input, z) && |dots| == p.n
    requires ColumnsKnown(p.columnMarks, uses, compress, p.n, Width(p))
    requires forall c :: 0 <= c < p.n ==> dots[c] == BitDot(SourceOf(p.columnMarks, uses, compress, p.n, Width(p), c),
      Ge(p, z))
    ensures dots == AddVec(z[..p.n], AllTemps(p, temp))
  {
    assert p.n <= |temp| && p.n <= |z|;
    hide Add, SourceOf, BitDot, AllTemps, ColumnsKnown, UsesFinal, Done, Fits, Planned, PeelSolution;
    forall c | 0 <= c < p.n ensures dots[c] == AddVec(z[..p.n], AllTemps(p, temp))[c] {
      SourceMeans(p, uses, compress, temp, input, z, c);
    }
  }

  lemma GeTail(p: Plan, z: Vec, k: nat)
    requires Planned(p) && Assigns(p, z) && k <= p.mixCount
    ensures Ge(p, z)[Width(p) - k..] == z[p.n + p.mixCount - k..]
  {
    hide Planned;
    var a, b := Ge(p, z)[Width(p) - k..], z[p.n + p.mixCount - k..];
    forall i | 0 <= i < k ensures a[i] == b[i] { GeMixed(p, z, p.mixCount - k + i); }
  }

  lemma GeMixed(p: Plan, z: Vec, m: nat)
    requires Planned(p) && Assigns(p, z) && m < p.mixCount
    ensures Ge(p, z)[|p.deferColumns| + m] == z[p.n + m]
  {}

  lemma GeMid(p: Plan, z: Vec, d: nat)
    requires Planned(p) && Assigns(p, z) && d <= p.mixCount
    ensures Ge(p, z)[|p.deferColumns|..|p.deferColumns| + d] == z[p.n..p.n + d]
  {
    hide Planned;
    var a, b := Ge(p, z)[|p.deferColumns|..|p.deferColumns| + d], z[p.n..p.n + d];
    forall i | 0 <= i < d ensures a[i] == b[i] { GeMixed(p, z, i); }
  }

  lemma HeavyMeans(s: System, p: Plan, input: Vec, temps: Vec, h: nat)
    requires Fit(s, p, input) && |temps| == p.n && h < HEAVY_ROWS
    ensures Width(p) >= s.HeavyCount()
    ensures Meant(s, p, input, HeavyRow(Heavy(s, h), Width(p) - s.HeavyCount()), HeavyKind(h), temps)
  {
    hide Add, Dot, Heavy, HeavyRow, Ge, Planned;
    var k := s.HeavyCount();
    forall z: Vec | PeelSolution(p, input, z)
      ensures Dot(HeavyRow(Heavy(s, h), Width(p) - k), Ge(p, z), Width(p))
        == Add(Left(s, HeavyKind(h), z), TempOf(s, HeavyKind(h), temps))
    {
      HeavyRowDot(Heavy(s, h), Width(p) - k, Ge(p, z), k);
      GeTail(p, z, k);
      AddZero(HeavyLeft(s, h, z));
    }
  }

  /** The GE row of a row received late: its mixing columns and what stands for its sparse ones. */
  lemma ExtraMeans(s: System, p: Plan, uses: seq<Use>, compress: seq<Bits>, temp: Vec, input: Vec, id: nat, bits: Bits,
    mixed: Bits)
    requires Fit(s, p, input) && Done(p, compress, temp, input) && UsesFinal(p, uses) && |p.solves| == p.n
    requires ColumnsKnown(p.columnMarks, uses, compress, p.n, Width(p))
    requires |bits| == |mixed| == Width(p)
    requires forall z: Vec :: PeelSolution(p, input, z) ==> BitDot(mixed, Ge(p, z)) == SumOf(MixColumns(s.code, id), z)
    requires bits == XorBits(mixed, XorSum(RowColumns(s.code, id), SourceSeq(p, uses, compress), Width(p)))
    ensures Meant(s, p, input, BitsRow(bits), SparseKind(id), AllTemps(p, temp))
  {
    assert p.n <= |temp|;
    hide Add, SumOf, Dot, RowColumns, MixColumns, Ge, BitsRow, AllTemps, XorSum, XorBits, UsesFinal, Done, ColumnsKnown,
      SourceOf, Planned;
    var sum := XorSum(RowColumns(s.code, id), SourceSeq(p, uses, compress), Width(p));
    forall z: Vec | PeelSolution(p, input, z)
      ensures Dot(BitsRow(bits), Ge(p, z), Width(p)) == Add(Left(s, SparseKind(id), z),
        TempOf(s, SparseKind(id), AllTemps(p, temp)))
    {
      var y, columns := Ge(p, z), RowColumns(s.code, id);
      BitDotXor(mixed, sum, y);
      XorSumDot(columns, SourceSeq(p, uses, compress), y);
      SourcesMean(p, uses, compress, temp, input, z, Dots(SourceSeq(p, uses, compress), y));
      SumAdd(columns, z[..p.n], AllTemps(p, temp));
      SumAgree(columns, z[..p.n], z);
      var m, c, t := SumOf(MixColumns(s.code, id), z), SumOf(columns, z), SumOf(columns, AllTemps(p, temp));
      AddAssoc(m, c, t);
      AddComm(m, c);
    }
  }

  ghost function SourceSeq(p: Plan, uses: seq<Use>, compress: seq<Bits>): (r: seq<Bits>)
    requires ColumnsKnown(p.columnMarks, uses, compress, p.n, Width(p))
    ensures |r| == p.n && forall c :: 0 <= c < p.n ==> |r[c]| == Width(p)
    ensures forall c :: 0 <= c < p.n ==> r[c] == SourceOf(p.columnMarks, uses, compress, p.n, Width(p), c)
  {
    seq(p.n, c requires 0 <= c < p.n => SourceOf(p.columnMarks, uses, compress, p.n, Width(p), c))
  }

  ghost predicate Matches(s: System, p: Plan, uses: seq<Use>, compress: seq<Bits>, a: Assembler) {
    && a.Fixed() && a.columnMarks == p.columnMarks && a.uses == uses && a.compress == compress && a.n == p.n
    && a.width == Width(p) && a.system == s && a.denseCount == s.dense && a.stream == s.stream
      && a.deferCount == |p.deferColumns|
  }

  ghost function DenseRow(s: System, p: Plan, a: Assembler, r: nat): (row: Bits)
    requires ValidSystem(s) && a.Fixed() && a.width == Width(p) && a.denseCount == s.dense && r < s.dense
    ensures |row| == Width(p)
  {
    XorBits(a.DenseBits(WindowCount(p.n, s.dense), r), Inset(s.block[r], a.deferCount, Width(p)))
  }

  lemma DenseMeansFor(s: System, p: Plan, uses: seq<Use>, compress: seq<Bits>, temp: Vec, input: Vec, a: Assembler,
    r: nat, z: Vec)
    requires Fit(s, p, input) && Done(p, compress, temp, input) && UsesFinal(p, uses) && |p.solves| == p.n
    requires Matches(s, p, uses, compress, a) && r < s.dense && PeelSolution(p, input, z) && p.n <= |temp|
    ensures BitDot(DenseRow(s, p, a, r), Ge(p, z)) == Add(Left(s, DenseKind(r), z),
      TempOf(s, DenseKind(r), AllTemps(p, temp)))
  {
    hide Add, SumOf, BitDot, Ge, AllTemps, XorBits, UsesFinal, Done, ColumnsKnown, SourceOf, Planned, Inset, DenseSum;
    var k := WindowCount(p.n, s.dense);
    var y, temps := Ge(p, z), AllTemps(p, temp);
    var bits, inset := a.DenseBits(k, r), Inset(s.block[r], a.deferCount, Width(p));
    BitDotXor(bits, inset, y);
    InsetDot(s.block[r], a.deferCount, y);
    GeMid(p, z, s.dense);
    a.DenseBitsDot(k, r, y);
    SourcesMean(p, uses, compress, temp, input, z, a.ColumnDots(y));
    DenseSumAdd(s.stream, s.dense, k, r, z[..p.n], temps);
    var x, t, j := DenseSum(s.stream, s.dense, k, r, z[..p.n]), DenseSum(s.stream, s.dense, k, r, temps),
      BitDot(s.block[r], z[p.n..p.n + s.dense]);
    AddAssoc(x, t, j);
    AddComm(t, j);
    AddAssoc(x, j, t);
  }

  /** A dense row: its windows and the block that ties it to the mixing columns. */
  lemma DenseMeans(s: System, p: Plan, uses: seq<Use>, compress: seq<Bits>, temp: Vec, input: Vec, a: Assembler, r: nat)
    requires Fit(s, p, input) && Done(p, compress, temp, input) && UsesFinal(p, uses) && |p.solves| == p.n
    requires Matches(s, p, uses, compress, a) && r < s.dense
    ensures p.n <= |temp| && Meant(s, p, input, BitsRow(DenseRow(s, p, a, r)), DenseKind(r), AllTemps(p, temp))
  {
    assert p.n <= |temp|;
    hide Add, BitDot, Ge, AllTemps, UsesFinal, Done, Planned, DenseRow, Matches, Left, TempOf, PeelSolution;
    forall z: Vec | PeelSolution(p, input, z)
      ensures Dot(BitsRow(DenseRow(s, p, a, r)), Ge(p, z), Width(p))
        == Add(Left(s, DenseKind(r), z), TempOf(s, DenseKind(r), AllTemps(p, temp)))
    {
      DenseMeansFor(s, p, uses, compress, temp, input, a, r, z);
      BitDotIs(DenseRow(s, p, a, r), Ge(p, z));
    }
  }

  lemma BitDotIs(a: Bits, y: Vec)
    requires |a| == |y|
    ensures BitDot(a, y) == Dot(BitsRow(a), y, |a|)
  {}

  // ---------- The GE columns determine the peeled ones ----------

  lemma {:induction false} PeelsAgree(p: Plan, input: Vec, z: Vec, z': Vec, i: nat)
    requires Planned(p) && |input| == |p.solves| && PeelSolution(p, input, z) && PeelSolution(p, input, z')
    requires Ge(p, z) == Ge(p, z') && i <= |p.peels|
    ensures forall c :: c in p.position && p.position[c] < i ==> c < p.n && z[c] == z'[c]
  {
    hide Add, SumOf;
    if i > 0 {
      PeelsAgree(p, input, z, z', i - 1);
      PeelAt(p, i - 1);
      var q := p.peels[i - 1];
      var c := p.solves[q];
      PeelFacts(p, q);
      assert RowPlanned(p, q) && RowHolds(p, q, input[q], z) && RowHolds(p, q, input[q], z');
      RowWithin(p, q, z);
      RowWithin(p, q, z');
      forall k | 0 <= k < |p.columnsOf[q]| ensures z'[c := z[c]][p.columnsOf[q][k]] == z[p.columnsOf[q][k]] {
        var x := p.columnsOf[q][k];
        assert x in p.columnsOf[q];
        if x != c {
          assert Before(p.columnMarks, p.position, x, i - 1);
          if x !in p.position { DeferredAgree(p, z, z', x); }
        }
      }
      SumAgree(p.columnsOf[q], z'[c := z[c]], z);
      SumUpdate(p.columnsOf[q], z', c, z[c]);
      forall k | 0 <= k < |p.mixOf[q]| ensures z[p.mixOf[q][k]] == z'[p.mixOf[q][k]] {
        MixAgree(p, z, z', p.mixOf[q][k]); }
      SumAgree(p.mixOf[q], z, z');
      AgreeAlgebra(SparseSum(p, q, z'), MixSum(p, q, z), z'[c], z[c], input[q]);
      forall x | x in p.position && p.position[x] < i ensures x < p.n && z[x] == z'[x] {
        if p.position[x] == i - 1 { assert p.solves[p.peels[i - 1]] == x; }
      }
    }
  }

  lemma AgreeAlgebra(s: Byte, m: Byte, a: Byte, b: Byte, v: Byte)
    requires Add(s, m) == v && Add(Add(s, Add(a, b)), m) == v
    ensures a == b
  {}

  lemma DeferredAgree(p: Plan, z: Vec, z': Vec, c: nat)
    requires Planned(p) && Assigns(p, z) && Assigns(p, z') && Ge(p, z) == Ge(p, z')
    requires c < p.n && p.columnMarks[c].Defer?
    ensures z[c] == z'[c]
  {
    assert c in p.deferColumns;
    var k :| 0 <= k < |p.deferColumns| && p.deferColumns[k] == c;
    assert Ge(p, z)[k] == z[c] && Ge(p, z')[k] == z'[c];
  }

  lemma MixAgree(p: Plan, z: Vec, z': Vec, c: nat)
    requires Planned(p) && Assigns(p, z) && Assigns(p, z') && Ge(p, z) == Ge(p, z')
    requires p.n <= c < p.n + p.mixCount
    ensures z[c] == z'[c]
  {
    var k := |p.deferColumns| + (c - p.n);
    assert Ge(p, z)[k] == z[c] && Ge(p, z')[k] == z'[c];
  }

  /** Two solutions of the peeled rows with the same GE columns are the same. */
  lemma PeelUnique(p: Plan, input: Vec, z: Vec, z': Vec)
    requires Planned(p) && |input| == |p.solves| && PeelSolution(p, input, z) && PeelSolution(p, input, z')
    requires Ge(p, z) == Ge(p, z')
    ensures z == z'
  {
    hide Add, SumOf, PeelSolution, Ge;
    PeelsAgree(p, input, z, z', |p.peels|);
    assert Assigns(p, z) && Assigns(p, z') by { SolutionAssigns(p, input, z); SolutionAssigns(p, input, z'); }
    forall c | 0 <= c < |z| ensures z[c] == z'[c] {
      if c >= p.n { MixAgree(p, z, z', c); }
      else if p.columnMarks[c].Defer? { DeferredAgree(p, z, z', c); }
      else { assert c in p.position; }
    }
  }

  lemma SolutionAssigns(p: Plan, input: Vec, z: Vec)
    requires Planned(p) && |input| == |p.solves| && PeelSolution(p, input, z)
    ensures Assigns(p, z)
  {}

  /** Where the GE columns are. */
  lemma GeMapFacts(p: Plan)
    requires Planned(p)
    ensures NoRepeat(GeMap(p)) && forall k :: 0 <= k < Width(p) ==> GeMap(p)[k] < p.n + p.mixCount
    ensures forall k :: 0 <= k < Width(p) && GeMap(p)[k] < p.n ==> !p.columnMarks[GeMap(p)[k]].Peel?
  {
    forall k | 0 <= k < |p.deferColumns| ensures p.deferColumns[k] < p.n
      && p.columnMarks[p.deferColumns[k]].Defer? { DeferredBelow(p, k); }
  }

  lemma GeIs(p: Plan, z: Vec)
    requires Planned(p) && Assigns(p, z)
    ensures forall k :: 0 <= k < Width(p) ==> GeMap(p)[k] < |z| && Ge(p, z)[k] == z[GeMap(p)[k]]
  {
    forall k | 0 <= k < |p.deferColumns| ensures p.deferColumns[k] < p.n { DeferredBelow(p, k); }
  }

  /** The temporary blocks of all peeled columns. */
  lemma AllTempsArePeeled(p: Plan, temp: Vec)
    requires Planned(p) && p.n <= |temp|
    ensures forall c :: 0 <= c < p.n ==> AllTemps(p, temp)[c] == if p.columnMarks[c].Peel? then temp[c] else ZERO
  {
    forall c | 0 <= c < p.n ensures Solved(p, |p.peels|, c) <==> p.columnMarks[c].Peel? {
      if p.columnMarks[c].Peel? { assert c in p.position; }
      if c in p.position { assert p.columnMarks[c].Peel?; }
    }
  }
}

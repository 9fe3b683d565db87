/** Stage 2, what it means: the compression row and the temporary block of every row keep their
    meaning in each solution of the peeled rows while the peeled columns are eliminated in order. */
module Diagonal {
  import opened GF256
  import opened Linear
  import opened Elimination
  import opened Rows
  import opened PeelState
  import opened Sums

  /** What peeling decided. solves[q] is the column row q solves, or LIST_TERM if it is deferred. */
  datatype Plan = Plan(
    n: nat, mixCount: nat,
    columnsOf: seq<seq<nat>>, mixOf: seq<seq<nat>>,
    columnMarks: seq<Mark>, solves: seq<nat>,
    peels: seq<nat>, position: map<nat, nat>,
    deferColumns: seq<nat>)

  ghost predicate Peels(p: Plan, q: nat) {
    q < |p.solves| && p.solves[q] != LIST_TERM
  }

  ghost predicate RowPlanned(p: Plan, q: nat)
    requires q < |p.solves| == |p.columnsOf| == |p.mixOf|
  {
    && RowShape(p.n, p.columnsOf[q])
    && |p.mixOf[q]| == 3 && NoRepeat(p.mixOf[q]) && (forall k :: 0 <= k < 3 ==> p.n <= p.mixOf[q][k] < p.n + p.mixCount)
    && (p.solves[q] != LIST_TERM ==>
          && p.solves[q] in p.columnsOf[q] && p.solves[q] in p.position
          && p.position[p.solves[q]] < |p.peels| && p.peels[p.position[p.solves[q]]] == q
          && OrderAt(p.columnsOf[q], p.columnMarks, p.position, p.solves[q], p.position[p.solves[q]]))
  }

  ghost predicate Planned(p: Plan) {
    && p.n <= MAX_N && |p.columnMarks| == p.n && |p.solves| == |p.columnsOf| == |p.mixOf|
    && (forall q :: 0 <= q < |p.solves| ==> RowPlanned(p, q))
    && (forall i :: 0 <= i < |p.peels| ==>
          p.peels[i] < |p.solves| && p.solves[p.peels[i]] in p.position && p.position[p.solves[p.peels[i]]] == i)
    && (forall c :: c in p.position ==>
          c < p.n && p.columnMarks[c].Peel? && p.position[c] < |p.peels|
          && p.peels[p.position[c]] < |p.solves| && p.solves[p.peels[p.position[c]]] == c)
    && (forall c :: 0 <= c < p.n ==> if p.columnMarks[c].Peel? then c in p.position else p.columnMarks[c].Defer?)
    && NoRepeat(p.deferColumns)
    && (forall c: nat :: c in p.deferColumns <==> c < p.n && p.columnMarks[c].Defer?)
  }

  lemma DeferredIff(p: Plan, c: nat)
    requires Planned(p) && c < p.n
    ensures c in p.deferColumns <==> !p.columnMarks[c].Peel?
  {}

  lemma DeferredBelow(p: Plan, k: nat)
    requires Planned(p) && k < |p.deferColumns|
    ensures p.deferColumns[k] < p.n && p.columnMarks[p.deferColumns[k]].Defer?
  {
    assert p.deferColumns[k] in p.deferColumns;
  }

  function Width(p: Plan): nat { |p.deferColumns| + p.mixCount }

  /** The column each GE column stands for: the deferred ones, then the mixing ones. */
  function GeMap(p: Plan): (r: seq<nat>)
    ensures |r| == Width(p)
  {
    p.deferColumns + seq(p.mixCount, m requires 0 <= m => p.n + m)
  }

  ghost predicate Assigns(p: Plan, z: Vec) {
    |z| == p.n + p.mixCount
  }

  /** The values of the GE columns. */
  ghost function Ge(p: Plan, z: Vec): (y: Vec)
    requires Planned(p) && Assigns(p, z)
    ensures |y| == Width(p)
  {
    seq(Width(p), k requires 0 <= k < Width(p) =>
      if k < |p.deferColumns| then (assert p.deferColumns[k] in p.deferColumns; z[p.deferColumns[k]])
      else z[p.n + (k - |p.deferColumns|)])
  }

  ghost predicate Sparse(p: Plan, q: nat, z: Vec) {
    && q < |p.columnsOf| && q < |p.mixOf| && p.n <= |z|
    && Within(p.columnsOf[q], p.n)
  }

  /** The sparse columns of row q, summed. */
  ghost function SparseSum(p: Plan, q: nat, z: Vec): Byte
    requires Sparse(p, q, z)
  {
    SumOf(p.columnsOf[q], z)
  }

  ghost function MixSum(p: Plan, q: nat, z: Vec): Byte
    requires q < |p.mixOf| && Within(p.mixOf[q], |z|)
  {
    SumOf(p.mixOf[q], z)
  }

  lemma RowWithin(p: Plan, q: nat, z: Vec)
    requires Planned(p) && q < |p.solves| && p.n + p.mixCount <= |z|
    ensures Sparse(p, q, z) && Within(p.mixOf[q], |z|) && NoRepeat(p.columnsOf[q]) && NoRepeat(p.mixOf[q])
      && |p.mixOf[q]| == 3
  {
    assert RowPlanned(p, q);
  }

  ghost predicate RowHolds(p: Plan, q: nat, value: Byte, z: Vec)
    requires Planned(p) && q < |p.solves| && Assigns(p, z)
  {
    RowWithin(p, q, z);
    Add(SparseSum(p, q, z), MixSum(p, q, z)) == value
  }

  /** z satisfies the equation of every peeled row. */
  ghost predicate PeelSolution(p: Plan, input: Vec, z: Vec)
    requires Planned(p) && |input| == |p.solves|
  {
    Assigns(p, z) && forall q :: 0 <= q < |p.solves| && Peels(p, q) ==> RowHolds(p, q, input[q], z)
  }

  ghost predicate Solved(p: Plan, i: nat, c: nat) {
    c in p.position && p.position[c] < i
  }

  /** After i peeled rows: what is left in a row besides its compression row. */
  ghost function Rest(p: Plan, i: nat, temp: Vec, z: Vec): (w: Vec)
    requires |p.columnMarks| == p.n && p.n <= |temp| && p.n <= |z|
    ensures |w| == p.n
  {
    seq(p.n, c requires 0 <= c < p.n =>
      if p.columnMarks[c].Defer? then ZERO else if Solved(p, i, c) then temp[c] else z[c])
  }

  /** After i peeled rows: the temporary blocks of the columns solved so far. */
  ghost function Temps(p: Plan, i: nat, temp: Vec): (w: Vec)
    requires p.n <= |temp|
    ensures |w| == p.n
  {
    seq(p.n, c requires 0 <= c < p.n => if Solved(p, i, c) then temp[c] else ZERO)
  }

  ghost predicate Fits(p: Plan, compress: seq<Bits>, temp: Vec) {
    && |compress| == |p.solves| && (forall q :: 0 <= q < |compress| ==> |compress[q]| == Width(p))
    && p.n <= |temp|
  }

  /** Row q is still to be eliminated: a deferred row, or a peeled one from the i-th on. */
  ghost predicate Waits(p: Plan, i: nat, q: nat)
    requires q < |p.solves|
  {
    Peels(p, q) ==> !Solved(p, i, p.solves[q])
  }

  /** The equation of a waiting row: compression row plus what is left; a peeled row has not taken
      its mixing columns in yet. */
  ghost predicate RowMeans(p: Plan, i: nat, compress: seq<Bits>, temp: Vec, z: Vec, q: nat)
    requires Planned(p) && Fits(p, compress, temp) && Assigns(p, z) && q < |p.solves|
  {
    RowWithin(p, q, z);
    Add(SparseSum(p, q, z), if Peels(p, q) then ZERO else MixSum(p, q, z))
      == Add(BitDot(compress[q], Ge(p, z)), SparseSum(p, q, Rest(p, i, temp, z)))
  }

  /** A solved column equals its temporary block plus the GE columns of its compression row. */
  ghost predicate ColumnMeans(p: Plan, compress: seq<Bits>, temp: Vec, z: Vec, q: nat)
    requires Planned(p) && Fits(p, compress, temp) && Assigns(p, z) && q < |p.solves| && p.solves[q] < p.n
  {
    z[p.solves[q]] == Add(temp[p.solves[q]], BitDot(compress[q], Ge(p, z)))
  }

  ghost predicate Means(p: Plan, i: nat, compress: seq<Bits>, temp: Vec, z: Vec)
    requires Planned(p) && Fits(p, compress, temp) && Assigns(p, z)
  {
    && (forall q :: 0 <= q < |p.solves| && Waits(p, i, q) ==> RowMeans(p, i, compress, temp, z, q))
    && (forall q :: 0 <= q < |p.solves| && !Waits(p, i, q) ==>
      p.solves[q] < p.n
      && ColumnMeans(p, compress, temp, z, q))
  }

  /** The temporary block of a waiting peeled row is its input plus those of the columns solved so
      far, or is not written yet and there are none. */
  ghost predicate Gathered(p: Plan, i: nat, temp: Vec, input: Vec, copied: bool, q: nat)
    requires Planned(p) && p.n <= |temp| && |input| == |p.solves| && q < |p.solves| && p.solves[q] < p.n
  {
    RowWithin(p, q, temp + Zeros(p.mixCount));
    var sum := SparseSum(p, q, Temps(p, i, temp));
    if copied then temp[p.solves[q]] == Add(input[q], sum) else sum == ZERO
  }

  // ---------- One step ----------

  lemma PeelFacts(p: Plan, q: nat)
    requires Planned(p) && q < |p.solves| && Peels(p, q)
    ensures p.solves[q] < p.n && p.solves[q] in p.position && p.position[p.solves[q]] < |p.peels|
    ensures p.solves[q] in p.columnsOf[q] && p.peels[p.position[p.solves[q]]] == q
    ensures p.columnMarks[p.solves[q]].Peel?
  {
    assert RowPlanned(p, q);
  }

  /** The i-th peeled row, whose other columns are deferred or solved: what its column equals. */
  lemma SolveMeans(p: Plan, compress: seq<Bits>, compress': seq<Bits>, temp: Vec, temp': Vec, input: Vec, copied: bool,
    z: Vec, q: nat)
    requires Planned(p) && Fits(p, compress, temp) && Fits(p, compress', temp') && |input| == |p.solves|
    requires q < |p.solves| && Peels(p, q) && p.solves[q] in p.position && p.solves[q] < p.n
    requires PeelSolution(p, input, z) && RowMeans(p, p.position[p.solves[q]], compress, temp, z, q)
    requires Gathered(p, p.position[p.solves[q]], temp, input, copied, q)
    requires Within(p.mixOf[q], |z|) && BitDot(compress'[q], Ge(p, z)) ==
      Add(BitDot(compress[q], Ge(p, z)), MixSum(p, q, z))
    requires temp'[p.solves[q]] == if copied then temp[p.solves[q]] else input[q]
    ensures ColumnMeans(p, compress', temp', z, q)
  {
    hide Add, Mul, SumOf, BitDot, Ge;
    var i, c := p.position[p.solves[q]], p.solves[q];
    RowWithin(p, q, z);
    assert RowPlanned(p, q) && RowHolds(p, q, input[q], z);
    var rest, temps := Rest(p, i, temp, z), Temps(p, i, temp);
    forall k | 0 <= k < |p.columnsOf[q]| ensures rest[p.columnsOf[q][k]] == temps[c := z[c]][p.columnsOf[q][k]] {
      var x := p.columnsOf[q][k];
      assert x in p.columnsOf[q];
      if x != c { assert Before(p.columnMarks, p.position, x, i); }
    }
    SumAgree(p.columnsOf[q], rest, temps[c := z[c]]);
    SumUpdate(p.columnsOf[q], temps, c, z[c]);
    AddZero(input[q]);
    SolveAlgebra(SparseSum(p, q, z), MixSum(p, q, z), BitDot(compress[q], Ge(p, z)), SparseSum(p, q, temps), z[c],
      input[q]);
  }

  lemma SolveAlgebra(columns: Byte, mix: Byte, bits: Byte, temps: Byte, value: Byte, input: Byte)
    requires Add(columns, mix) == input
    requires Add(columns, ZERO) == Add(bits, Add(temps, Add(ZERO, value)))
    ensures value == Add(Add(input, temps), Add(bits, mix))
  {}

  /** Row r, just solved for column c, has been added to the other rows that contain c. */
  ghost predicate Spread(p: Plan, r: nat, c: nat, compress: seq<Bits>, compress': seq<Bits>,
    temp: Vec, temp': Vec, input: Vec, copied: seq<bool>, copied': seq<bool>)
    requires Planned(p) && Fits(p, compress, temp) && |input| == |copied| == |p.solves| && r < |p.solves| && c < p.n
  {
    && Fits(p, compress', temp') && |temp'| == |temp| && |copied'| == |copied|
    && (forall q :: 0 <= q < |p.solves| ==> Touched(p, r, c, q, compress, compress', temp, temp', input, copied,
      copied'))
  }

  ghost predicate Touched(p: Plan, r: nat, c: nat, q: nat, compress: seq<Bits>, compress': seq<Bits>,
    temp: Vec, temp': Vec, input: Vec, copied: seq<bool>, copied': seq<bool>)
    requires Planned(p) && Fits(p, compress, temp) && |input| == |copied| == |p.solves| && r < |p.solves| && c < p.n
      && q < |p.solves|
    requires Fits(p, compress', temp') && |copied'| == |copied|
  {
    TouchedIf(p, c in p.columnsOf[q] && q != r, r, c, q, compress, compress', temp, temp', input, copied, copied')
  }

  ghost predicate TouchedIf(p: Plan, on: bool, r: nat, c: nat, q: nat, compress: seq<Bits>, compress': seq<Bits>,
    temp: Vec, temp': Vec, input: Vec, copied: seq<bool>, copied': seq<bool>)
    requires Planned(p) && Fits(p, compress, temp) && |input| == |copied| == |p.solves| && r < |p.solves| && c < p.n
      && q < |p.solves|
    requires Fits(p, compress', temp') && |copied'| == |copied|
  {
    if on then
      && compress'[q] == XorBits(compress[q], compress[r])
      && (Peels(p, q) && p.solves[q] < p.n ==>
            copied'[q] && temp'[p.solves[q]] == Add(if copied[q] then temp[p.solves[q]] else input[q], temp[c]))
    else
      && compress'[q] == compress[q] && copied'[q] == copied[q]
      && (Peels(p, q) && p.solves[q] < p.n ==> temp'[p.solves[q]] == temp[p.solves[q]])
  }

  ghost predicate TouchedIn(p: Plan, list: seq<nat>, r: nat, c: nat, q: nat, compress: seq<Bits>, compress': seq<Bits>,
    temp: Vec, temp': Vec, input: Vec, copied: seq<bool>, copied': seq<bool>)
    requires Planned(p) && Fits(p, compress, temp) && |input| == |copied| == |p.solves| && r < |p.solves| && c < p.n
      && q < |p.solves|
    requires Fits(p, compress', temp') && |copied'| == |copied|
  {
    TouchedIf(p, q in list && q != r, r, c, q, compress, compress', temp, temp', input, copied, copied')
  }

  /** The same with the rows of list up to position k visited. */
  ghost predicate PartSpread(p: Plan, list: seq<nat>, k: nat, r: nat, c: nat, compress: seq<Bits>, compress': seq<Bits>,
    temp: Vec, temp': Vec, input: Vec, copied: seq<bool>, copied': seq<bool>)
    requires Planned(p) && Fits(p, compress, temp) && |input| == |copied| == |p.solves| && r < |p.solves| && c < p.n
    requires k <= |list|
  {
    && Fits(p, compress', temp') && |temp'| == |temp| && |copied'| == |copied|
    && compress'[r] == compress[r] && temp'[c] == temp[c]
    && (forall q :: 0 <= q < |p.solves| ==>
          TouchedIn(p, list[..k], r, c, q, compress, compress', temp, temp', input, copied, copied'))
  }

  lemma PartSpreadNone(p: Plan, list: seq<nat>, r: nat, c: nat, compress: seq<Bits>, temp: Vec, input: Vec,
    copied: seq<bool>)
    requires Planned(p) && Fits(p, compress, temp) && |input| == |copied| == |p.solves| && r < |p.solves| && c < p.n
    ensures PartSpread(p, list, 0, r, c, compress, compress, temp, temp, input, copied, copied)
  {}

  lemma PartSpreadAll(p: Plan, list: seq<nat>, r: nat, c: nat, compress: seq<Bits>, compress': seq<Bits>,
    temp: Vec, temp': Vec, input: Vec, copied: seq<bool>, copied': seq<bool>)
    requires Planned(p) && Fits(p, compress, temp) && |input| == |copied| == |p.solves| && r < |p.solves| && c < p.n
    requires PartSpread(p, list, |list|, r, c, compress, compress', temp, temp', input, copied, copied')
    requires forall q :: 0 <= q < |p.solves| ==> (q in list <==> c in p.columnsOf[q])
    ensures Spread(p, r, c, compress, compress', temp, temp', input, copied, copied')
  {
    hide TouchedIf;
    assert list[..|list|] == list;
    forall q | 0 <= q < |p.solves| ensures Touched(p, r, c, q, compress, compress', temp, temp', input, copied,
      copied') {
      assert TouchedIn(p, list[..|list|], r, c, q, compress, compress', temp, temp', input, copied, copied');
    }
  }

  /** Visiting the next row of the list, unless it is row r itself. */
  lemma PartSpreadNext(p: Plan, list: seq<nat>, k: nat, r: nat, c: nat, compress: seq<Bits>, compress': seq<Bits>,
    compress'': seq<Bits>,
    temp: Vec, temp': Vec, temp'': Vec, input: Vec, copied: seq<bool>, copied': seq<bool>, copied'': seq<bool>)
    requires Planned(p) && Fits(p, compress, temp) && |input| == |copied| == |p.solves| && r < |p.solves| && c < p.n
    requires k < |list| && NoRepeat(list) && list[k] < |p.solves| && Peels(p, r) && p.solves[r] == c
    requires PartSpread(p, list, k, r, c, compress, compress', temp, temp', input, copied, copied')
    requires var q := list[k];
      if q == r then compress'' == compress' && temp'' == temp' && copied'' == copied' else
      && compress'' == compress'[q := XorBits(compress'[q], compress'[r])]
      && if Peels(p, q) then
           && p.solves[q] < |temp'| && copied'' == copied'[q := true]
           && temp'' == temp'[p.solves[q] := Add(if copied'[q] then temp'[p.solves[q]] else input[q], temp'[c])]
         else temp'' == temp' && copied'' == copied'
    ensures PartSpread(p, list, k + 1, r, c, compress, compress'', temp, temp'', input, copied, copied'')
  {
    hide Add, XorBits;
    var q, done, done' := list[k], list[..k], list[..k + 1];
    assert done' == done + [q] && q !in done;
    assert TouchedIn(p, list[..k], r, c, q, compress, compress', temp, temp', input, copied, copied');
    PeelFacts(p, r);
    if Peels(p, q) { PeelFacts(p, q); }
    forall x | 0 <= x < |p.solves|
      ensures TouchedIn(p, done', r, c, x, compress, compress'', temp, temp'', input, copied, copied'')
    {
      assert TouchedIn(p, done, r, c, x, compress, compress', temp, temp', input, copied, copied');
      if Peels(p, x) { PeelFacts(p, x); }
    }
  }

  /** No row done before or with row i has the i-th column but row i itself. */
  lemma DoneWithout(p: Plan, i: nat, q: nat)
    requires Planned(p) && i < |p.peels| && q < |p.solves| && !Waits(p, i + 1, q)
    ensures p.peels[i] < |p.solves| && q != p.peels[i] ==> p.solves[p.peels[i]] !in p.columnsOf[q]
  {
    PeelFacts(p, q);
    PeelFacts(p, p.peels[i]);
    var c := p.solves[p.peels[i]];
    assert RowPlanned(p, q);
    assert c in p.columnsOf[q] && c != p.solves[q] ==> Before(p.columnMarks, p.position, c, p.position[p.solves[q]]);
  }

  lemma SolvedNext(p: Plan, i: nat, x: nat)
    requires Planned(p) && i < |p.peels|
    ensures Solved(p, i + 1, x) <==> Solved(p, i, x) || x == p.solves[p.peels[i]]
  {
    if x in p.position && p.position[x] == i {
      assert p.solves[p.peels[i]] == x;
    }
  }

  /** The temporary block of a solved column does not change any more. */
  lemma TempKept(p: Plan, i: nat, x: nat, compress: seq<Bits>, compress': seq<Bits>,
    temp: Vec, temp': Vec, input: Vec, copied: seq<bool>, copied': seq<bool>)
    requires Planned(p) && Fits(p, compress, temp) && |input| == |copied| == |p.solves|
    requires i < |p.peels| && p.peels[i] < |p.solves| && p.solves[p.peels[i]] < p.n
    requires Spread(p, p.peels[i], p.solves[p.peels[i]], compress, compress', temp, temp', input, copied, copied')
    requires Solved(p, i + 1, x)
    ensures x < p.n && temp'[x] == temp[x]
  {
    var q := p.peels[p.position[x]];
    assert p.solves[q] == x;
    assert !Waits(p, i + 1, q);
    PeelFacts(p, p.peels[i]);
    DoneWithout(p, i, q);
    assert Touched(p, p.peels[i], p.solves[p.peels[i]], q, compress, compress', temp, temp', input, copied, copied');
  }

  lemma RestNext(p: Plan, i: nat, compress: seq<Bits>, compress': seq<Bits>,
    temp: Vec, temp': Vec, input: Vec, copied: seq<bool>, copied': seq<bool>, z: Vec)
    requires Planned(p) && Fits(p, compress, temp) && |input| == |copied| == |p.solves|
    requires i < |p.peels| && p.peels[i] < |p.solves| && p.solves[p.peels[i]] < p.n && Assigns(p, z)
    requires Spread(p, p.peels[i], p.solves[p.peels[i]], compress, compress', temp, temp', input, copied, copied')
    ensures var c := p.solves[p.peels[i]];
      && Rest(p, i + 1, temp', z) == Rest(p, i, temp, z)[c := temp[c]]
      && Temps(p, i + 1, temp') == Temps(p, i, temp)[c := temp[c]]
      && Rest(p, i, temp, z)[c] == z[c] && Temps(p, i, temp)[c] == ZERO
  {
    assert Fits(p, compress', temp');
    hide Spread;
    var c := p.solves[p.peels[i]];
    PeelFacts(p, p.peels[i]);
    var rest', temps' := Rest(p, i + 1, temp', z), Temps(p, i + 1, temp');
    var rest, temps := Rest(p, i, temp, z)[c := temp[c]], Temps(p, i, temp)[c := temp[c]];
    forall x | 0 <= x < p.n ensures rest'[x] == rest[x] && temps'[x] == temps[x] {
      SolvedNext(p, i, x);
      if Solved(p, i + 1, x) { TempKept(p, i, x, compress, compress', temp, temp', input, copied, copied'); }
    }
  }

  /** A row that goes on waiting. */
  lemma SpreadRow(p: Plan, i: nat, compress: seq<Bits>, compress': seq<Bits>,
    temp: Vec, temp': Vec, input: Vec, copied: seq<bool>, copied': seq<bool>, z: Vec, q: nat)
    requires Planned(p) && Fits(p, compress, temp) && |input| == |copied| == |p.solves|
    requires i < |p.peels| && p.peels[i] < |p.solves| && p.solves[p.peels[i]] < p.n && Assigns(p, z)
    requires Spread(p, p.peels[i], p.solves[p.peels[i]], compress, compress', temp, temp', input, copied, copied')
    requires ColumnMeans(p, compress, temp, z, p.peels[i])
    requires q < |p.solves| && q != p.peels[i] && RowMeans(p, i, compress, temp, z, q)
    ensures RowMeans(p, i + 1, compress', temp', z, q)
  {
    hide Add, SumOf, BitDot, Ge, Rest, Temps, XorBits;
    var r, c := p.peels[i], p.solves[p.peels[i]];
    RestNext(p, i, compress, compress', temp, temp', input, copied, copied', z);
    RowWithin(p, q, z);
    var rest := Rest(p, i, temp, z);
    SumUpdate(p.columnsOf[q], rest, c, temp[c]);
    assert Touched(p, r, c, q, compress, compress', temp, temp', input, copied, copied');
    if c in p.columnsOf[q] {
      var y := Ge(p, z);
      BitDotXor(compress[q], compress[r], y);
      SpreadAlgebra(BitDot(compress[q], y), SparseSum(p, q, rest), BitDot(compress[r], y), z[c], temp[c]);
    }
  }

  lemma SpreadAlgebra(bits: Byte, rest: Byte, solved: Byte, value: Byte, temp: Byte)
    requires value == Add(temp, solved)
    ensures Add(bits, rest) == Add(Add(bits, solved), Add(rest, Add(value, temp)))
  {}

  lemma SpreadGathered(p: Plan, i: nat, compress: seq<Bits>, compress': seq<Bits>,
    temp: Vec, temp': Vec, input: Vec, copied: seq<bool>, copied': seq<bool>, q: nat)
    requires Planned(p) && Fits(p, compress, temp) && |input| == |copied| == |p.solves|
    requires i < |p.peels| && p.peels[i] < |p.solves| && p.solves[p.peels[i]] < p.n
    requires Spread(p, p.peels[i], p.solves[p.peels[i]], compress, compress', temp, temp', input, copied, copied')
    requires q < |p.solves| && q != p.peels[i] && Peels(p, q) && p.solves[q] < p.n
      && Gathered(p, i, temp, input, copied[q], q)
    ensures Gathered(p, i + 1, temp', input, copied'[q], q)
  {
    hide Add, SumOf, Rest, Temps, XorBits;
    var r, c := p.peels[i], p.solves[p.peels[i]];
    var z := Zeros(p.n + p.mixCount);
    RestNext(p, i, compress, compress', temp, temp', input, copied, copied', z);
    RowWithin(p, q, z);
    var temps := Temps(p, i, temp);
    SumUpdate(p.columnsOf[q], temps, c, temp[c]);
    assert Touched(p, r, c, q, compress, compress', temp, temp', input, copied, copied');
    if c in p.columnsOf[q] {
      var s := SparseSum(p, q, temps);
      AddZero(temp[c]);
      AddZero(input[q]);
      AddAssoc(input[q], s, temp[c]);
    }
  }

  /** A row done already. */
  lemma SpreadDone(p: Plan, i: nat, compress: seq<Bits>, compress': seq<Bits>,
    temp: Vec, temp': Vec, input: Vec, copied: seq<bool>, copied': seq<bool>, z: Vec, q: nat)
    requires Planned(p) && Fits(p, compress, temp) && |input| == |copied| == |p.solves|
    requires i < |p.peels| && p.peels[i] < |p.solves| && p.solves[p.peels[i]] < p.n && Assigns(p, z)
    requires Spread(p, p.peels[i], p.solves[p.peels[i]], compress, compress', temp, temp', input, copied, copied')
    requires q < |p.solves| && !Waits(p, i + 1, q) && p.solves[q] < p.n && ColumnMeans(p, compress, temp, z, q)
    ensures ColumnMeans(p, compress', temp', z, q)
  {
    hide Add, SumOf, BitDot, Ge, XorBits;
    DoneWithout(p, i, q);
    assert Touched(p, p.peels[i], p.solves[p.peels[i]], q, compress, compress', temp, temp', input, copied, copied');
  }

  // ---------- All rows, all solutions ----------

  /** In every solution of the peeled rows all rows mean what they should after i of them. */
  ghost predicate MeansAll(p: Plan, i: nat, compress: seq<Bits>, temp: Vec, input: Vec)
    requires Planned(p) && Fits(p, compress, temp) && |input| == |p.solves|
  {
    forall z: Vec :: PeelSolution(p, input, z) ==> Means(p, i, compress, temp, z)
  }

  ghost predicate GatheredAll(p: Plan, i: nat, temp: Vec, input: Vec, copied: seq<bool>)
    requires Planned(p) && p.n <= |temp| && |input| == |copied| == |p.solves|
  {
    forall q :: 0 <= q < |p.solves| && Peels(p, q) && Waits(p, i, q) ==>
      p.solves[q] < p.n
      && Gathered(p, i, temp, input, copied[q], q)
  }

  /** The three mixing columns of row q flipped in a row of bits. */
  function MixFlipped(p: Plan, q: nat, bits: Bits): (r: Bits)
    requires |bits| == Width(p) && q < |p.mixOf| && |p.mixOf[q]| == 3
    requires forall k :: 0 <= k < 3 ==> p.n <= p.mixOf[q][k] < p.n + p.mixCount
    ensures |r| == |bits|
  {
    var d, m := |p.deferColumns|, p.mixOf[q];
    Flip(Flip(Flip(bits, d + (m[0] - p.n)), d + (m[1] - p.n)), d + (m[2] - p.n))
  }

  lemma MixFlippedDot(p: Plan, q: nat, bits: Bits, z: Vec)
    requires Planned(p) && q < |p.solves| && |bits| == Width(p) && Assigns(p, z)
    ensures RowPlanned(p, q) && Within(p.mixOf[q], |z|)
    ensures BitDot(MixFlipped(p, q, bits), Ge(p, z)) == Add(BitDot(bits, Ge(p, z)), MixSum(p, q, z))
  {
    hide Add, BitDot, SumOf, Flip;
    assert RowPlanned(p, q);
    var d, m, y := |p.deferColumns|, p.mixOf[q], Ge(p, z);
    var k0, k1, k2 := d + (m[0] - p.n), d + (m[1] - p.n), d + (m[2] - p.n);
    BitDotFlip(bits, k0, y);
    BitDotFlip(Flip(bits, k0), k1, y);
    BitDotFlip(Flip(Flip(bits, k0), k1), k2, y);
    SumThree(m, z);
    var b := BitDot(bits, y);
    AddAssoc(b, z[m[0]], z[m[1]]);
    AddAssoc(b, Add(z[m[0]], z[m[1]]), z[m[2]]);
  }

  ghost predicate Taken(p: Plan, i: nat, compress: seq<Bits>, compress': seq<Bits>, temp: Vec, temp': Vec, input: Vec,
    copied: bool)
    requires Planned(p) && Fits(p, compress, temp) && |input| == |p.solves|
  {
    && i < |p.peels| && p.peels[i] < |p.solves| && p.solves[p.peels[i]] < p.n && RowPlanned(p, p.peels[i])
    && compress' == compress[p.peels[i] := MixFlipped(p, p.peels[i], compress[p.peels[i]])]
    && temp' == if copied then temp else temp[p.solves[p.peels[i]] := input[p.peels[i]]]
  }

  /** Taking the mixing columns of the i-th peeled row in and writing its block settles its column ... */
  lemma TakeSolved(p: Plan, i: nat, compress: seq<Bits>, compress': seq<Bits>, temp: Vec, temp': Vec, input: Vec,
    copied: bool, z: Vec)
    requires Planned(p) && Fits(p, compress, temp) && |input| == |p.solves|
    requires Taken(p, i, compress, compress', temp, temp', input, copied)
    requires PeelSolution(p, input, z) && Means(p, i, compress, temp, z)
    requires Gathered(p, i, temp, input, copied, p.peels[i])
    ensures Fits(p, compress', temp') && ColumnMeans(p, compress', temp', z, p.peels[i])
  {
    hide Add, BitDot, SumOf, MixFlipped, Gathered, Ge, RowMeans, ColumnMeans;
    var r := p.peels[i];
    WaitsNow(p, i);
    PeelFacts(p, r);
    assert RowMeans(p, i, compress, temp, z, r);
    MixFlippedDot(p, r, compress[r], z);
    RowWithin(p, r, z);
    SolveMeans(p, compress, compress', temp, temp', input, copied, z, r);
  }

  /** ... and changes no other row, neither one that waits ... */
  lemma TakeWaiting(p: Plan, i: nat, compress: seq<Bits>, compress': seq<Bits>, temp: Vec, temp': Vec, input: Vec,
    copied: bool, z: Vec, q: nat)
    requires Planned(p) && Fits(p, compress, temp) && |input| == |p.solves|
    requires Taken(p, i, compress, compress', temp, temp', input, copied) && Assigns(p, z)
    requires Means(p, i, compress, temp, z) && q < |p.solves| && q != p.peels[i] && Waits(p, i + 1, q)
    ensures Fits(p, compress', temp') && RowMeans(p, i, compress', temp', z, q)
  {
    hide Add, BitDot, SumOf, MixFlipped, Ge;
    WaitsNow(p, i);
    PeelFacts(p, p.peels[i]);
    if Peels(p, q) { SolvedNext(p, i, p.solves[q]); }
    assert RowMeans(p, i, compress, temp, z, q);
    assert Rest(p, i, temp', z) == Rest(p, i, temp, z);
  }

  /** ... nor one done before. */
  lemma TakeDone(p: Plan, i: nat, compress: seq<Bits>, compress': seq<Bits>, temp: Vec, temp': Vec, input: Vec,
    copied: bool, z: Vec, q: nat)
    requires Planned(p) && Fits(p, compress, temp) && |input| == |p.solves|
    requires Taken(p, i, compress, compress', temp, temp', input, copied) && Assigns(p, z)
    requires Means(p, i, compress, temp, z) && q < |p.solves| && q != p.peels[i] && !Waits(p, i + 1, q)
    ensures Fits(p, compress', temp') && p.solves[q] < p.n && ColumnMeans(p, compress', temp', z, q)
  {
    hide Add, BitDot, SumOf, MixFlipped, Ge, RowMeans;
    WaitsNow(p, i);
    PeelFacts(p, p.peels[i]);
    PeelFacts(p, q);
    SolvedNext(p, i, p.solves[q]);
    assert !Waits(p, i, q);
  }

  lemma TakeGathered(p: Plan, i: nat, temp: Vec, temp': Vec, input: Vec, copied: seq<bool>, q: nat)
    requires Planned(p) && p.n <= |temp| && |input| == |copied| == |p.solves|
    requires i < |p.peels| && p.peels[i] < |p.solves| && p.solves[p.peels[i]] < p.n
    requires temp' == if copied[p.peels[i]] then temp else temp[p.solves[p.peels[i]] := input[p.peels[i]]]
    requires GatheredAll(p, i, temp, input, copied) && q < |p.solves| && Peels(p, q) && Waits(p, i + 1, q)
    ensures q != p.peels[i] && p.solves[q] < p.n && Gathered(p, i, temp', input, copied[q], q)
  {
    hide Add, SumOf;
    PeelFacts(p, q);
    PeelFacts(p, p.peels[i]);
    SolvedNext(p, i, p.solves[q]);
    assert Gathered(p, i, temp, input, copied[q], q);
    RowWithin(p, q, temp + Zeros(p.mixCount));
    assert Temps(p, i, temp') == Temps(p, i, temp);
  }

  /** One peeled row, for all rows and all solutions. */
  lemma StepAll(p: Plan, i: nat, compress: seq<Bits>, compress': seq<Bits>, compress'': seq<Bits>,
    temp: Vec, temp': Vec, temp'': Vec, input: Vec, copied: seq<bool>, copied': seq<bool>)
    requires Planned(p) && Fits(p, compress, temp) && |input| == |copied| == |p.solves|
    requires i < |p.peels| && p.peels[i] < |copied| && Taken(p, i, compress, compress', temp, temp', input,
      copied[p.peels[i]])
    requires Fits(p, compress', temp')
    requires Spread(p, p.peels[i], p.solves[p.peels[i]], compress', compress'', temp', temp'', input, copied, copied')
    requires MeansAll(p, i, compress, temp, input) && GatheredAll(p, i, temp, input, copied)
    ensures MeansAll(p, i + 1, compress'', temp'', input) && GatheredAll(p, i + 1, temp'', input, copied')
  {
    hide Spread, RowMeans, ColumnMeans, Gathered, Planned, MixFlipped, Waits;
    var r, j := p.peels[i], i + 1;
    assert Fits(p, compress'', temp'') && |copied'| == |copied| by {
      SpreadFits(p, r, p.solves[r], compress', compress'', temp', temp'', input, copied, copied'); }
    WaitsNow(p, i);
    PeelFacts(p, r);
    assert Gathered(p, i, temp, input, copied[r], r);
    forall z: Vec | PeelSolution(p, input, z) ensures Means(p, j, compress'', temp'', z) {
      assert Means(p, i, compress, temp, z);
      TakeSolved(p, i, compress, compress', temp, temp', input, copied[r], z);
      assert !Waits(p, i + 1, r) by { DoneNow(p, i); }
      forall q | 0 <= q < |p.solves|
        ensures Waits(p, j, q) ==> RowMeans(p, j, compress'', temp'', z, q)
        ensures !Waits(p, j, q) ==> p.solves[q] < p.n && ColumnMeans(p, compress'', temp'', z, q)
      {
        if Waits(p, j, q) {
          TakeWaiting(p, i, compress, compress', temp, temp', input, copied[r], z, q);
          SpreadRow(p, i, compress', compress'', temp', temp'', input, copied, copied', z, q);
        } else {
          if q != r { TakeDone(p, i, compress, compress', temp, temp', input, copied[r], z, q); }
          SpreadDone(p, i, compress', compress'', temp', temp'', input, copied, copied', z, q);
        }
      }
    }
    forall q | 0 <= q < |p.solves| && Peels(p, q) && Waits(p, j, q)
      ensures p.solves[q] < p.n && Gathered(p, j, temp'', input, copied'[q], q)
    {
      TakeGathered(p, i, temp, temp', input, copied, q);
      SpreadGathered(p, i, compress', compress'', temp', temp'', input, copied, copied', q);
    }
  }

  lemma SpreadFits(p: Plan, r: nat, c: nat, compress: seq<Bits>, compress': seq<Bits>,
    temp: Vec, temp': Vec, input: Vec, copied: seq<bool>, copied': seq<bool>)
    requires Planned(p) && Fits(p, compress, temp) && |input| == |copied| == |p.solves| && r < |p.solves| && c < p.n
    requires Spread(p, r, c, compress, compress', temp, temp', input, copied, copied')
    ensures Fits(p, compress', temp') && |temp'| == |temp| && |copied'| == |copied|
  {}

  lemma WaitsNow(p: Plan, i: nat)
    requires Planned(p) && i < |p.peels| && p.peels[i] < |p.solves|
    ensures Waits(p, i, p.peels[i]) && Peels(p, p.peels[i])
  {
    assert p.solves[p.peels[i]] in p.position;
  }

  lemma DoneNow(p: Plan, i: nat)
    requires Planned(p) && i < |p.peels| && p.peels[i] < |p.solves|
    ensures !Waits(p, i + 1, p.peels[i])
  {
    assert p.solves[p.peels[i]] in p.position;
  }

  // ---------- The start ----------

  /** Which deferred columns row q has. */
  function DeferBits(p: Plan, q: nat): (r: Bits)
    requires q < |p.columnsOf|
    ensures |r| == Width(p)
  {
    seq(Width(p), k requires 0 <= k => k < |p.deferColumns| && p.deferColumns[k] in p.columnsOf[q])
  }

  ghost function FirstBits(p: Plan, q: nat, d: nat): (r: Bits)
    requires q < |p.columnsOf|
    ensures |r| == Width(p)
  {
    seq(Width(p), k requires 0 <= k => k < d && k < |p.deferColumns| && p.deferColumns[k] in p.columnsOf[q])
  }

  /** The first d deferred columns have been marked. */
  ghost predicate Marked(p: Plan, compress: seq<Bits>, d: nat) {
    && |compress| == |p.columnsOf|
    && (forall q :: 0 <= q < |compress| ==> compress[q] == FirstBits(p, q, d))
  }

  /** And the next one in the rows of list. */
  ghost predicate MarkedIn(p: Plan, compress: seq<Bits>, d: nat, list: seq<nat>) {
    && |compress| == |p.columnsOf| && d < |p.deferColumns|
    && (forall q :: 0 <= q < |compress| ==> compress[q] == if q in list then FirstBits(p, q, d)[d := true]
      else FirstBits(p, q, d))
  }

  lemma MarkedNone(p: Plan, compress: seq<Bits>)
    requires |compress| == |p.columnsOf|
    requires forall q :: 0 <= q < |compress| ==> compress[q] == NoBits(Width(p))
    ensures Marked(p, compress, 0)
  {
    forall q | 0 <= q < |compress| ensures compress[q] == FirstBits(p, q, 0) {
      assert FirstBits(p, q, 0) == NoBits(Width(p));
    }
  }

  lemma MarkedRow(p: Plan, compress: seq<Bits>, d: nat, list: seq<nat>, i: nat)
    requires i < |list| && list[i] < |compress| && MarkedIn(p, compress, d, list[..i])
    ensures d < |compress[list[i]]| && MarkedIn(p, compress[list[i] := compress[list[i]][d := true]], d, list[..i + 1])
  {
    hide FirstBits;
    assert list[..i + 1] == list[..i] + [list[i]];
  }

  lemma MarkedColumn(p: Plan, compress: seq<Bits>, d: nat, list: seq<nat>)
    requires MarkedIn(p, compress, d, list[..|list|])
    requires forall q :: 0 <= q < |compress| ==> (q in list <==> p.deferColumns[d] in p.columnsOf[q])
    ensures Marked(p, compress, d + 1)
  {
    assert list[..|list|] == list;
    forall q | 0 <= q < |compress| ensures compress[q] == FirstBits(p, q, d + 1) {
      if q in list {
        assert FirstBits(p, q, d + 1) == FirstBits(p, q, d)[d := true];
      } else {
        assert FirstBits(p, q, d + 1) == FirstBits(p, q, d);
      }
    }
  }

  lemma MarkedAll(p: Plan, compress: seq<Bits>)
    requires Marked(p, compress, |p.deferColumns|)
    ensures forall q :: 0 <= q < |compress| ==> compress[q] == DeferBits(p, q)
  {
    forall q | 0 <= q < |compress| ensures compress[q] == DeferBits(p, q) {
      assert FirstBits(p, q, |p.deferColumns|) == DeferBits(p, q);
    }
  }

  /** The GE column of each of the first k deferred columns is written in its union. */
  ghost predicate Numbered(p: Plan, uses: seq<Use>, uses0: seq<Use>, k: nat) {
    && |uses| == |uses0| == p.n && k <= |p.deferColumns|
    && (forall c :: 0 <= c < p.n ==>
          if c in p.deferColumns[..k] then uses[c].GEColumn? && uses[c].column < k
            && p.deferColumns[uses[c].column] == c
          else uses[c] == uses0[c])
  }

  lemma NumberedNone(p: Plan, uses: seq<Use>)
    requires |uses| == p.n
    ensures Numbered(p, uses, uses, 0)
  {}

  lemma PlanSmall(p: Plan)
    requires Planned(p)
    ensures p.n < LIST_TERM && |p.columnsOf| == |p.mixOf| == |p.solves| && |p.columnMarks| == p.n
  {}

  lemma NumberedNext(p: Plan, uses: seq<Use>, uses0: seq<Use>, k: nat)
    requires Planned(p) && Numbered(p, uses, uses0, k) && k < |p.deferColumns|
    ensures p.deferColumns[k] < p.n && Numbered(p, uses[p.deferColumns[k] := GEColumn(k)], uses0, k + 1)
  {
    DeferredBelow(p, k);
    assert p.deferColumns[..k + 1] == p.deferColumns[..k] + [p.deferColumns[k]];
  }

  lemma RefsTell(p: Plan, refs: seq<seq<nat>>, c: nat)
    requires RefsOk(p.n, p.columnsOf, refs) && c < p.n
    ensures NoRepeat(refs[c]) && forall q :: 0 <= q < |p.columnsOf| ==> (q in refs[c] <==> c in p.columnsOf[q])
    ensures forall k :: 0 <= k < |refs[c]| ==> refs[c][k] < |p.columnsOf|
  {
    assert RefsOf(p.columnsOf, refs[c], c);
  }

  lemma LinkNext(nexts: seq<nat>, list: seq<nat>, head: nat, k: nat)
    requires Linked(nexts, list, head) && |nexts| < LIST_TERM
    ensures NoRepeat(list)
    ensures k == 0 ==> head == (if k < |list| then list[k] else LIST_TERM)
    ensures k < |list| ==> list[k] < |nexts| && nexts[list[k]] == (if k + 1 < |list| then list[k + 1] else LIST_TERM)
  {}

  ghost function FirstDeferred(p: Plan, z: Vec, d: nat): (w: Vec)
    requires Assigns(p, z) && d <= |p.deferColumns|
    ensures |w| == p.n
  {
    seq(p.n, c requires 0 <= c < p.n => if c in p.deferColumns[..d] then z[c] else ZERO)
  }

  lemma {:induction false} FirstBitsDot(p: Plan, q: nat, z: Vec, d: nat)
    requires Planned(p) && q < |p.solves| && Assigns(p, z) && d <= |p.deferColumns|
    ensures Sparse(p, q, FirstDeferred(p, z, d))
    ensures BitDot(FirstBits(p, q, d), Ge(p, z)) == SparseSum(p, q, FirstDeferred(p, z, d))
  {
    hide Add, BitDot, SumOf;
    RowWithin(p, q, z);
    var y := Ge(p, z);
    if d == 0 {
      assert FirstBits(p, q, 0) == NoBits(Width(p));
      BitDotNone(Width(p), y);
      SumZero(p.columnsOf[q], FirstDeferred(p, z, 0));
    } else {
      var k := d - 1;
      var c := p.deferColumns[k];
      FirstBitsDot(p, q, z, k);
      assert c in p.deferColumns && p.deferColumns[..d] == p.deferColumns[..k] + [c] && c !in p.deferColumns[..k];
      var u := FirstDeferred(p, z, k);
      assert FirstDeferred(p, z, d) == u[c := z[c]];
      SumUpdate(p.columnsOf[q], u, c, z[c]);
      AddZero(z[c]);
      if c in p.columnsOf[q] {
        assert FirstBits(p, q, d) == Flip(FirstBits(p, q, k), k);
        BitDotFlip(FirstBits(p, q, k), k, y);
      } else {
        assert FirstBits(p, q, d) == FirstBits(p, q, k);
      }
    }
  }

  /** With none of the peeled rows done: the sparse columns are the deferred ones and the rest. */
  lemma DeferBitsMean(p: Plan, q: nat, temp: Vec, z: Vec)
    requires Planned(p) && q < |p.solves| && Assigns(p, z) && p.n <= |temp|
    ensures Sparse(p, q, z) && Sparse(p, q, Rest(p, 0, temp, z))
    ensures SparseSum(p, q, z) == Add(BitDot(DeferBits(p, q), Ge(p, z)), SparseSum(p, q, Rest(p, 0, temp, z)))
  {
    hide Add, BitDot, SumOf;
    RowWithin(p, q, z);
    var d := |p.deferColumns|;
    assert FirstBits(p, q, d) == DeferBits(p, q);
    FirstBitsDot(p, q, z, d);
    var u, w := FirstDeferred(p, z, d), Rest(p, 0, temp, z);
    assert p.deferColumns[..d] == p.deferColumns;
    SumAdd(p.columnsOf[q], u, w);
    forall k | 0 <= k < |p.columnsOf[q]| ensures AddVec(u, w)[p.columnsOf[q][k]] == z[p.columnsOf[q][k]] {
      AddZero(z[p.columnsOf[q][k]]);
    }
    SumAgree(p.columnsOf[q], AddVec(u, w), z);
  }

  ghost function StartBits(p: Plan, q: nat): (r: Bits)
    requires q < |p.columnsOf| == |p.solves| == |p.mixOf| && RowPlanned(p, q)
    ensures |r| == Width(p)
  {
    if Peels(p, q) then DeferBits(p, q) else MixFlipped(p, q, DeferBits(p, q))
  }

  lemma StartMeans(p: Plan, compress: seq<Bits>, temp: Vec, z: Vec, q: nat)
    requires Planned(p) && Fits(p, compress, temp) && Assigns(p, z) && q < |p.solves|
    requires RowPlanned(p, q) && compress[q] == StartBits(p, q)
    ensures Waits(p, 0, q) && RowMeans(p, 0, compress, temp, z, q)
  {
    hide Add, BitDot, SumOf, DeferBits, MixFlipped, Rest, Ge;
    RowWithin(p, q, z);
    DeferBitsMean(p, q, temp, z);
    AddZero(SparseSum(p, q, z));
    if !Peels(p, q) {
      MixFlippedDot(p, q, DeferBits(p, q), z);
      var b, m, s := BitDot(DeferBits(p, q), Ge(p, z)), MixSum(p, q, z), SparseSum(p, q, Rest(p, 0, temp, z));
      AddAssoc(b, s, m);
      AddComm(s, m);
      AddAssoc(b, m, s);
    }
  }

  lemma StartAll(p: Plan, compress: seq<Bits>, temp: Vec, input: Vec, copied: seq<bool>)
    requires Planned(p) && Fits(p, compress, temp) && |input| == |copied| == |p.solves|
    requires forall q :: 0 <= q < |p.solves| ==> RowPlanned(p, q) && compress[q] == StartBits(p, q)
    requires forall q :: 0 <= q < |p.solves| && Peels(p, q) ==> !copied[q]
    ensures MeansAll(p, 0, compress, temp, input) && GatheredAll(p, 0, temp, input, copied)
  {
    hide Add, BitDot, SumOf, RowMeans, StartBits, ColumnMeans;
    forall z: Vec | PeelSolution(p, input, z) ensures Means(p, 0, compress, temp, z) {
      forall q | 0 <= q < |p.solves| ensures Waits(p, 0, q) && RowMeans(p, 0, compress, temp, z, q) {
        StartMeans(p, compress, temp, z, q);
      }
    }
    forall q | 0 <= q < |p.solves| && Peels(p, q) ensures p.solves[q] < p.n
      && Gathered(p, 0, temp, input, copied[q], q) {
      PeelFacts(p, q);
      RowWithin(p, q, temp + Zeros(p.mixCount));
      SumZero(p.columnsOf[q], Temps(p, 0, temp));
    }
  }

  function CopiedOf(marks: seq<Marks>): (r: seq<bool>)
    requires forall q :: 0 <= q < |marks| ==> marks[q].Result?
    ensures |r| == |marks|
  {
    seq(|marks|, q requires 0 <= q < |marks| => marks[q].copied)
  }

  /** The rows of list have taken their mixing columns in, the others just their deferred ones. */
  ghost predicate Started(p: Plan, compress: seq<Bits>, list: seq<nat>) {
    && |compress| == |p.columnsOf| == |p.solves| == |p.mixOf|
    && (forall q :: 0 <= q < |compress| ==>
          RowPlanned(p, q) && compress[q] == if q in list then MixFlipped(p, q, DeferBits(p, q)) else DeferBits(p, q))
  }

  lemma StartedNone(p: Plan, compress: seq<Bits>)
    requires Planned(p) && Marked(p, compress, |p.deferColumns|)
    ensures Started(p, compress, [])
  {
    hide DeferBits, FirstBits, RowPlanned, MixFlipped;
    MarkedAll(p, compress);
  }

  lemma StartedRow(p: Plan, compress: seq<Bits>, list: seq<nat>, k: nat)
    requires k < |list| && Started(p, compress, list[..k]) && NoRepeat(list) && list[k] < |compress|
    requires |compress[list[k]]| == Width(p)
    ensures RowPlanned(p, list[k])
    ensures Started(p, compress[list[k] := MixFlipped(p, list[k], compress[list[k]])], list[..k + 1])
  {
    hide DeferBits, MixFlipped, RowPlanned;
    assert list[..k + 1] == list[..k] + [list[k]];
  }

  /** The results of the peeled rows and of the rows of list are in their unions. */
  ghost predicate SolvesWritten(p: Plan, marks: seq<Marks>, list: seq<nat>) {
    && |marks| == |p.solves|
    && (forall q :: 0 <= q < |marks| && (q in list || Peels(p, q)) ==>
      marks[q].Result?
      && marks[q].column == p.solves[q])
    && (forall q :: 0 <= q < |marks| && Peels(p, q) ==> !marks[q].copied)
  }

  /** Every row has its result in its union. */
  ghost predicate Results(p: Plan, marks: seq<Marks>) {
    && |marks| == |p.solves|
    && (forall q :: 0 <= q < |marks| ==> marks[q].Result? && marks[q].column == p.solves[q])
  }

  /** The state of the diagonal after i peeled rows. */
  ghost predicate Diagonalized(p: Plan, i: nat, compress: seq<Bits>, temp: Vec, input: Vec, marks: seq<Marks>) {
    && Planned(p) && |input| == |p.solves| && Fits(p, compress, temp) && Results(p, marks)
    && MeansAll(p, i, compress, temp, input) && GatheredAll(p, i, temp, input, CopiedOf(marks))
  }

  lemma DiagonalStart(p: Plan, compress: seq<Bits>, temp: Vec, input: Vec, marks: seq<Marks>, defers: seq<nat>)
    requires Planned(p) && |input| == |p.solves| && Fits(p, compress, temp)
    requires forall q :: 0 <= q < |p.solves| ==> (q in defers <==> !Peels(p, q))
    requires Started(p, compress, defers) && SolvesWritten(p, marks, defers)
    ensures Diagonalized(p, 0, compress, temp, input, marks)
  {
    hide DeferBits, MixFlipped, Planned, RowPlanned;
    assert Results(p, marks);
    forall q | 0 <= q < |p.solves| ensures RowPlanned(p, q) && compress[q] == StartBits(p, q) {}
    StartAll(p, compress, temp, input, CopiedOf(marks));
  }

  lemma DiagonalStep(p: Plan, i: nat, compress: seq<Bits>, compress': seq<Bits>, compress'': seq<Bits>,
    temp: Vec, temp': Vec, temp'': Vec, input: Vec, marks: seq<Marks>, marks': seq<Marks>)
    requires Diagonalized(p, i, compress, temp, input, marks) && Results(p, marks')
    requires i < |p.peels| && p.peels[i] < |p.solves| && p.solves[p.peels[i]] < p.n
    requires Taken(p, i, compress, compress', temp, temp', input, marks[p.peels[i]].copied) && Fits(p, compress', temp')
    requires Spread(p, p.peels[i], p.solves[p.peels[i]], compress', compress'', temp', temp'', input, CopiedOf(marks),
      CopiedOf(marks'))
    ensures Diagonalized(p, i + 1, compress'', temp'', input, marks')
  {
    hide Spread, Taken, MeansAll, GatheredAll, Planned;
    SpreadFits(p, p.peels[i], p.solves[p.peels[i]], compress', compress'', temp', temp'', input, CopiedOf(marks),
      CopiedOf(marks'));
    StepAll(p, i, compress, compress', compress'', temp, temp', temp'', input, CopiedOf(marks), CopiedOf(marks'));
  }

  lemma TakenFits(p: Plan, i: nat, compress: seq<Bits>, compress': seq<Bits>, temp: Vec, temp': Vec, input: Vec,
    copied: bool)
    requires Planned(p) && Fits(p, compress, temp) && |input| == |p.solves|
    requires Taken(p, i, compress, compress', temp, temp', input, copied)
    ensures Fits(p, compress', temp') && |temp'| == |temp|
  {}

  lemma PeelAt(p: Plan, i: nat)
    requires Planned(p) && i < |p.peels|
    ensures p.peels[i] < |p.solves| && RowPlanned(p, p.peels[i]) && Peels(p, p.peels[i])
    ensures p.solves[p.peels[i]] < p.n && p.position[p.solves[p.peels[i]]] == i
  {
    WaitsNow(p, i);
    PeelFacts(p, p.peels[i]);
  }

  // ---------- From peeling ----------

  /** What a finished peeling decided. */
  ghost function MakePlan(s: State, code: Code, ids: seq<nat>, deferColumns: seq<nat>): Plan
    requires ValidCode(code) && |ids| == |s.marks| == |s.columnsOf|
  {
    Plan(code.n, code.mixCount, s.columnsOf,
      seq(|ids|, q requires 0 <= q < |ids| => MixColumns(code, ids[q])),
      s.columnMarks,
      seq(|ids|, q requires 0 <= q < |ids| => if q in s.peels
        && s.marks[q].Result? then s.marks[q].column else LIST_TERM),
      s.peels, s.position, deferColumns)
  }

  lemma PlanSolves(s: State, code: Code, ids: seq<nat>, deferColumns: seq<nat>, i: nat)
    requires ValidCode(code) && |ids| == |s.marks| == |s.columnsOf| && InvBut(s, {}, {}, {}) && s.n == code.n
    requires i < |s.peels|
    ensures var p := MakePlan(s, code, ids, deferColumns);
      s.peels[i] < |ids| && p.solves[s.peels[i]] == s.marks[s.peels[i]].column && p.solves[s.peels[i]] != LIST_TERM
      && p.solves[s.peels[i]] in s.position && s.position[p.solves[s.peels[i]]] == i
  {
    hide RefsOk, ReachOk, ListsOk, OrderOk, UseOk, RowsOk, MixColumns;
    assert SolvesAt(s.columnsOf, s.marks, s.position, s.peels[i], i);
    assert s.peels[i] in s.peels;
    assert RowShape(s.n, s.columnsOf[s.peels[i]]);
  }

  lemma PlanRow(s: State, code: Code, ids: seq<nat>, deferColumns: seq<nat>, q: nat)
    requires ValidCode(code) && |ids| == |s.marks| == |s.columnsOf| && InvBut(s, {}, {}, {}) && s.n == code.n
    requires q < |ids|
    ensures RowPlanned(MakePlan(s, code, ids, deferColumns), q)
  {
    var p := MakePlan(s, code, ids, deferColumns);
    assert RowShape(s.n, s.columnsOf[q]);
    hide RefsOk, ReachOk, ListsOk, SolvesOk, UseOk, RowsOk, RowShape, NoRepeat, RowMix;
    if p.solves[q] != LIST_TERM {
      assert q in s.peels;
      var i :| 0 <= i < |s.peels| && s.peels[i] == q;
      PlanSolves(s, code, ids, deferColumns, i);
      assert OrderAt(s.columnsOf[q], s.columnMarks, s.position, s.marks[q].column, i);
      assert SolvesAt(s.columnsOf, s.marks, s.position, q, i) by { SolvesHere(s, i); }
    }
  }

  lemma SolvesHere(s: State, i: nat)
    requires SolvesOk(s.columnsOf, s.columnMarks, s.marks, s.peels, s.position) && i < |s.peels|
    ensures SolvesAt(s.columnsOf, s.marks, s.position, s.peels[i], i)
  {}

  lemma PlanIsPlanned(s: State, code: Code, ids: seq<nat>, deferColumns: seq<nat>)
    requires ValidCode(code) && |ids| == |s.marks| == |s.columnsOf| && InvBut(s, {}, {}, {}) && s.n == code.n
    requires forall c :: 0 <= c < |s.columnMarks| ==> !s.columnMarks[c].Todo?
    requires NoRepeat(deferColumns) && forall c: nat :: c in deferColumns <==>
      c < |s.columnMarks|
      && s.columnMarks[c].Defer?
    ensures Planned(MakePlan(s, code, ids, deferColumns))
  {
    var p := MakePlan(s, code, ids, deferColumns);
    hide RefsOk, ReachOk, ListsOk, OrderOk, UseOk, RowsOk, RowPlanned, MixColumns, NoRepeat, SolvesAt;
    forall q | 0 <= q < |p.solves| ensures RowPlanned(p, q) { PlanRow(s, code, ids, deferColumns, q); }
    forall i | 0 <= i < |p.peels|
      ensures p.peels[i] < |p.solves| && p.solves[p.peels[i]] in p.position && p.position[p.solves[p.peels[i]]] == i
    {
      PlanSolves(s, code, ids, deferColumns, i);
    }
    forall c | c in p.position
      ensures c < p.n && p.columnMarks[c].Peel? && p.position[c] < |p.peels|
        && p.peels[p.position[c]] < |p.solves| && p.solves[p.peels[p.position[c]]] == c
    {
      PlanSolves(s, code, ids, deferColumns, p.position[c]);
    }
  }

  /** The rows on the deferred list are those that solve nothing. */
  lemma PlanDefers(s: State, code: Code, ids: seq<nat>, deferColumns: seq<nat>, q: nat)
    requires ValidCode(code) && |ids| == |s.marks| == |s.columnsOf| && InvBut(s, {}, {}, {}) && s.n == code.n
    requires forall c :: 0 <= c < |s.columnMarks| ==> !s.columnMarks[c].Todo?
    requires q < |ids|
    ensures q in s.defers <==> MakePlan(s, code, ids, deferColumns).solves[q] == LIST_TERM
    ensures q !in s.defers ==>
      s.marks[q].Result? && s.marks[q].column == MakePlan(s, code, ids, deferColumns).solves[q]
      && !s.marks[q].copied
  {
    AllPlaced(s);
    hide RefsOk, ReachOk, OrderOk, UseOk, RowsOk, MixColumns, Linked;
    assert Placed(s.peels, s.defers, q);
    if q in s.peels {
      var i :| 0 <= i < |s.peels| && s.peels[i] == q;
      PlanSolves(s, code, ids, deferColumns, i);
      SolvesHere(s, i);
    }
  }
}

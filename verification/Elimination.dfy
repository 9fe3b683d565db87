/** Stage 3: Gaussian elimination in place over a mixed matrix. Dense, deferred and
    extra rows are bits; the last columns of extra rows and the six heavy rows are
    bytes once the heavy columns are reached. Eliminated entries keep the multiplier,
    and the search resumes where it stopped when a new row arrives. */
module Elimination {
  import opened GF256
  import opened Linear
  import opened Progress
  import opened Triangular

  const HEAVY_ROWS: nat := 6

  type Bits = seq<bool>

  function BitsRow(bits: Bits): (r: Vec)
    ensures |r| == |bits|
  {
    seq(|bits|, c requires 0 <= c < |bits| => If(bits[c], ONE))
  }

  /** Bits before the first heavy column, bytes from it on. */
  function MixedRow(bits: Bits, bytes: Vec, first: nat): (r: Vec)
    requires first + |bytes| == |bits|
    ensures |r| == |bits|
  {
    seq(|bits|, c requires 0 <= c < |bits| => if c < first then If(bits[c], ONE) else bytes[c - first])
  }

  function HeavyRow(bytes: Vec, first: nat): (r: Vec)
    ensures |r| == first + |bytes|
  {
    seq(first + |bytes|, c requires 0 <= c < first + |bytes| => if c < first then ZERO else bytes[c - first])
  }

  /** row ^= piv right of column k: the masked first word and the words after it. */
  function AddAbove(row: Bits, piv: Bits, k: nat): (r: Bits)
    requires |row| == |piv|
    ensures |r| == |row|
  {
    seq(|row|, c requires 0 <= c < |row| => if c > k then row[c] != piv[c] else row[c])
  }

  /** bytes += code * piv right of column first + k, where piv is a row of bits. */
  function AddBits(bytes: Vec, piv: Bits, first: nat, k: nat, code: Byte): (r: Vec)
    requires first + |bytes| == |piv|
    ensures |r| == |bytes|
  {
    seq(|bytes|, c requires 0 <= c < |bytes| => if c > k then Add(bytes[c], If(piv[first + c], code)) else bytes[c])
  }

  /** The multiplier x stored at column k and bytes += x * piv right of it. */
  function AddBytes(bytes: Vec, piv: Vec, k: nat, x: Byte): (r: Vec)
    requires |bytes| == |piv|
    ensures |r| == |bytes|
  {
    seq(|bytes|, c requires 0 <= c < |bytes| =>
      if c > k then Add(bytes[c], Mul(x, piv[c])) else if c == k then x else bytes[c])
  }

  /** A bit row after pivot row piv has been used on column k. */
  function ClearLight(row: Bits, piv: Bits, k: nat): (r: Bits)
    requires |row| == |piv| && k < |row|
    ensures |r| == |row|
  {
    if row[k] then AddAbove(row, piv, k) else row
  }

  /** A byte row after bit row piv has been used on column first + k. */
  function ClearByLight(bytes: Vec, piv: Bits, first: nat, k: nat): (r: Vec)
    requires first + |bytes| == |piv| && k < |bytes|
    ensures |r| == |bytes|
  {
    if bytes[k] == ZERO then bytes else AddBits(bytes, piv, first, k, bytes[k])
  }

  /** A byte row after byte row piv has been used on column first + k. */
  function ClearByHeavy(bytes: Vec, piv: Vec, k: nat): (r: Vec)
    requires |bytes| == |piv| && k < |bytes|
    ensures |r| == |bytes|
  {
    if bytes[k] == ZERO then bytes else AddBytes(bytes, piv, k, Div(bytes[k], piv[k]))
  }

  lemma IfOne(a: bool, b: bool)
    ensures Add(If(a, ONE), If(b, ONE)) == If(a != b, ONE)
  {}

  lemma LightByLight(row: Bits, piv: Bits, k: nat)
    requires |row| == |piv| && k < |row| && row[k] && piv[k]
    ensures Eliminated(BitsRow(row), BitsRow(piv), BitsRow(AddAbove(row, piv, k)), k)
  {
    hide Add, Mul;
    MulOne(ONE);
    forall c | k < c < |row|
      ensures If(row[c] != piv[c], ONE) == Add(If(row[c], ONE), Mul(ONE, If(piv[c], ONE)))
    {
      MulOne(If(piv[c], ONE));
      IfOne(row[c], piv[c]);
    }
  }

  lemma ByLightPivot(row: Vec, piv: Bits, row': Vec, k: nat)
    requires |row| == |piv| == |row'| && k < |row| && piv[k]
    requires forall c :: 0 <= c <= k ==> row'[c] == row[c]
    requires forall c :: k < c < |row| ==> row'[c] == Add(row[c], If(piv[c], row[k]))
    ensures Eliminated(row, BitsRow(piv), row', k)
  {
    hide Add, Mul;
    MulOne(row[k]);
    forall c | k < c < |row| ensures If(piv[c], row[k]) == Mul(row[k], If(piv[c], ONE)) {
      MulOne(row[k]);
      MulZero(row[k]);
    }
  }

  lemma ClearLightEliminates(row: Bits, piv: Bits, k: nat)
    requires |row| == |piv| && k < |row| && piv[k]
    ensures Eliminated(BitsRow(row), BitsRow(piv), BitsRow(ClearLight(row, piv, k)), k)
  {
    hide Add, Mul, Eliminated;
    if row[k] {
      LightByLight(row, piv, k);
    } else {
      NotNeeded(BitsRow(row), BitsRow(piv), k);
    }
  }

  /** row holds bytes from column first on; row' is row with those replaced by bytes'. */
  ghost predicate Holds(row: Vec, bytes: Vec, first: nat) {
    |row| == first + |bytes| && forall c :: 0 <= c < |bytes| ==> row[first + c] == bytes[c]
  }

  lemma ClearByLightEliminates(row: Vec, row': Vec, bytes: Vec, piv: Bits, first: nat, k: nat)
    requires Holds(row, bytes, first) && k < |bytes| && |piv| == |row| && piv[first + k]
    requires Holds(row', ClearByLight(bytes, piv, first, k), first)
    requires forall c :: 0 <= c < first ==> row'[c] == row[c]
    ensures Eliminated(row, BitsRow(piv), row', first + k)
  {
    hide Add, Mul, Eliminated;
    var bytes' := ClearByLight(bytes, piv, first, k);
    if bytes[k] == ZERO {
      forall c | 0 <= c < |row| ensures row'[c] == row[c] {
        if c >= first { assert row'[first + (c - first)] == bytes'[c - first]; }
      }
      assert row' == row;
      NotNeeded(row, BitsRow(piv), first + k);
    } else {
      forall c | 0 <= c <= first + k ensures row'[c] == row[c] {
        if c >= first { assert row'[first + (c - first)] == bytes'[c - first]; }
      }
      forall c | first + k < c < |row| ensures row'[c] == Add(row[c], If(piv[c], row[first + k])) {
        assert row'[first + (c - first)] == bytes'[c - first];
      }
      ByLightPivot(row, piv, row', first + k);
    }
  }

  lemma ClearByHeavyEliminates(row: Vec, row': Vec, bytes: Vec, piv: Vec, pbytes: Vec, first: nat, k: nat)
    requires Holds(row, bytes, first) && Holds(piv, pbytes, first) && |pbytes| == |bytes|
    requires k < |bytes| && pbytes[k] != ZERO
    requires Holds(row', ClearByHeavy(bytes, pbytes, k), first)
    requires forall c :: 0 <= c < first ==> row'[c] == row[c]
    ensures Eliminated(row, piv, row', first + k)
  {
    hide Add, Mul, Div;
    var bytes' := ClearByHeavy(bytes, pbytes, k);
    if bytes[k] == ZERO {
      forall c | 0 <= c < |row| ensures row'[c] == row[c] {
        if c >= first { assert row'[first + (c - first)] == bytes'[c - first]; }
      }
      assert row' == row;
      NotNeeded(row, piv, first + k);
    } else {
      DivMul(bytes[k], pbytes[k]);
      forall c | 0 <= c < first + k ensures row'[c] == row[c] {
        if c >= first { assert row'[first + (c - first)] == bytes'[c - first]; }
      }
      assert row'[first + k] == bytes'[k] && row[first + k] == bytes[k] && piv[first + k] == pbytes[k];
      forall c | first + k < c < |row| ensures row'[c] == Add(row[c], Mul(row'[first + k], piv[c])) {
        assert row'[first + (c - first)] == bytes'[c - first];
        assert row[first + (c - first)] == bytes[c - first];
        assert piv[first + (c - first)] == pbytes[c - first];
      }
    }
  }

  /** The two matrices together: light rows and extra rows as bits, extra and heavy rows as bytes. */
  datatype Matrix = Matrix(columns: nat, light: nat, extra: nat, first: nat, ge: seq<Bits>, heavy: seq<Vec>,
    heavyIn: bool) {

    predicate Shaped() {
      && first <= columns
      && |ge| == light + extra && |heavy| == extra + HEAVY_ROWS
      && (forall r :: 0 <= r < |ge| ==> |ge[r]| == columns)
      && (forall r :: 0 <= r < |heavy| ==> |heavy[r]| == columns - first)
    }

    function RowCount(): nat { light + extra + HEAVY_ROWS }

    /** The current contents of row r, whichever matrix holds it. */
    function Row(r: nat): (v: Vec)
      requires Shaped() && r < RowCount()
      ensures |v| == columns
    {
      if r < light || (r < light + extra && !heavyIn) then BitsRow(ge[r])
      else if r < light + extra then MixedRow(ge[r], heavy[r - light], first)
      else HeavyRow(heavy[r - light], first)
    }

    predicate Lists(list: seq<nat>) {
      forall p :: 0 <= p < |list| ==> list[p] < if heavyIn then RowCount() else light + extra
    }

    function Rows(list: seq<nat>): (s: seq<Vec>)
      requires Shaped() && Lists(list)
      ensures |s| == |list|
      ensures forall p :: 0 <= p < |list| ==> s[p] == Row(list[p])
    {
      seq(|list|, p requires 0 <= p < |list| => Row(list[p]))
    }
  }

  ghost function AllRows(m: Matrix): (s: seq<Vec>)
    requires m.Shaped()
    ensures |s| == m.RowCount()
    ensures forall r :: 0 <= r < |s| ==> s[r] == m.Row(r)
  {
    seq(m.RowCount(), r requires 0 <= r < m.RowCount() => m.Row(r))
  }

  ghost function Select(orig: seq<Vec>, list: seq<nat>): (s: seq<Vec>)
    requires forall p :: 0 <= p < |list| ==> list[p] < |orig|
    ensures |s| == |list|
    ensures forall p :: 0 <= p < |list| ==> s[p] == orig[list[p]]
  {
    seq(|list|, p requires 0 <= p < |list| => orig[list[p]])
  }

  predicate Distinct(list: seq<nat>) {
    forall p, q :: 0 <= p < q < |list| ==> list[p] != list[q]
  }

  function Swapped(list: seq<nat>, i: nat, j: nat): (r: seq<nat>)
    requires i < |list| && j < |list|
    ensures |r| == |list|
    ensures forall p :: 0 <= p < |list| ==> r[p] == list[if p == i then j else if p == j then i else p]
    ensures Distinct(list) ==> Distinct(r)
  {
    list[j := list[i]][i := list[j]]
  }

  /** Elimination state: every listed row obeys the LU identity against its original. */
  ghost predicate Sound(m: Matrix, list: seq<nat>, orig: seq<Vec>, upper: seq<Vec>) {
    && m.Shaped() && m.Lists(list) && Distinct(list)
    && |orig| == m.RowCount()
    && (forall r :: 0 <= r < |orig| ==> |orig[r]| == m.columns)
    && (!m.heavyIn ==> |upper| <= m.first)
    && Factoring(Select(orig, list), m.Rows(list), upper, m.columns)
    && UsedAgree(m, list, |upper|)
    && (!m.heavyIn ==> HeavyFresh(m, orig))
  }

  /** Rows used before the heavy columns were reached have the same bits in both matrices. */
  ghost predicate UsedAgree(m: Matrix, list: seq<nat>, used: nat)
    requires m.Shaped() && m.Lists(list)
  {
    forall j :: 0 <= j < used && j < m.first && j < |list| ==>
      list[j] < m.light + m.extra && m.Row(list[j]) == BitsRow(m.ge[list[j]])
  }

  /** Before they are listed, the heavy rows are untouched. */
  ghost predicate HeavyFresh(m: Matrix, orig: seq<Vec>)
    requires m.Shaped()
  {
    |orig| == m.RowCount() &&
    forall h :: m.light + m.extra <= h < m.RowCount() ==> orig[h] == HeavyRow(m.heavy[h - m.light], m.first)
  }

  lemma SoundSwap(m: Matrix, list: seq<nat>, orig: seq<Vec>, upper: seq<Vec>, i: nat, j: nat)
    requires Sound(m, list, orig, upper) && |upper| <= i <= j < |list|
    ensures Sound(m, Swapped(list, i, j), orig, upper)
  {
    hide Add, Mul, LuSum, LuRow;
    var list' := Swapped(list, i, j);
    assert Factoring(Select(orig, list'), m.Rows(list'), upper, m.columns) by {
      hide Distinct, UsedAgree, HeavyFresh;
      FactoringSwap(Select(orig, list), m.Rows(list), Select(orig, list'), m.Rows(list'), upper, m.columns, i, j);
    }
    hide Factoring;
  }

  /** Bit row piv used on column k of the listed bit rows in [from, to). */
  ghost predicate LightPass(m: Matrix, m': Matrix, list: seq<nat>, k: nat, piv: nat, from: nat, to: nat)
    requires m.Shaped() && m.Lists(list) && k < m.columns && piv < |m.ge|
  {
    && m'.Shaped() && m' == m.(ge := m'.ge) && m'.ge[piv] == m.ge[piv]
    && (forall p :: 0 <= p < |list| && list[p] < |m.ge| ==>
          m'.ge[list[p]] == if from <= p < to then ClearLight(m.ge[list[p]], m.ge[piv], k) else m.ge[list[p]])
  }

  /** Bit row piv used on column k of the listed byte rows from position from on. */
  ghost predicate MixedPass(m: Matrix, m': Matrix, list: seq<nat>, k: nat, piv: nat, from: nat)
    requires m.Shaped() && m.Lists(list) && m.first <= k < m.columns && piv < |m.ge|
  {
    && m'.Shaped() && m' == m.(heavy := m'.heavy)
    && (forall p :: 0 <= p < |list| && m.light <= list[p] ==>
          m'.heavy[list[p] - m.light] ==
            if from <= p then ClearByLight(m.heavy[list[p] - m.light], m.ge[piv], m.first, k - m.first)
            else m.heavy[list[p] - m.light])
  }

  /** Byte row piv used on column k of the listed byte rows from position from on. */
  ghost predicate HeavyPass(m: Matrix, m': Matrix, list: seq<nat>, k: nat, piv: nat, from: nat)
    requires m.Shaped() && m.Lists(list) && m.first <= k < m.columns && piv < |m.heavy|
  {
    && m'.Shaped() && m' == m.(heavy := m'.heavy) && m'.heavy[piv] == m.heavy[piv]
    && (forall p :: 0 <= p < |list| && m.light <= list[p] ==>
          m'.heavy[list[p] - m.light] ==
            if from <= p then ClearByHeavy(m.heavy[list[p] - m.light], m.heavy[piv], k - m.first)
            else m.heavy[list[p] - m.light])
  }

  /** The rows at positions [lo, hi) have nothing in column k. */
  ghost predicate ZeroAt(m: Matrix, list: seq<nat>, k: nat, lo: nat, hi: nat)
    requires m.Shaped() && m.Lists(list) && k < m.columns && hi <= |list|
  {
    forall p :: lo <= p < hi ==> m.Row(list[p])[k] == ZERO
  }

  lemma ZeroSwap(m: Matrix, list: seq<nat>, k: nat, i: nat, j: nat)
    requires m.Shaped() && m.Lists(list) && k < m.columns && i <= j < |list|
    requires ZeroAt(m, list, k, i, j)
    ensures m.Lists(Swapped(list, i, j))
    ensures ZeroAt(m, Swapped(list, i, j), k, i + 1, j + 1)
  {
    hide BitsRow, MixedRow, HeavyRow;
  }

  lemma ZeroJoin(m: Matrix, list: seq<nat>, k: nat, lo: nat, mid: nat, hi: nat)
    requires m.Shaped() && m.Lists(list) && k < m.columns && lo <= mid <= hi <= |list|
    requires (lo == mid || ZeroAt(m, list, k, lo, mid)) && ZeroAt(m, list, k, mid, hi)
    ensures ZeroAt(m, list, k, lo, hi)
  {}

  /** Exchanging two rows without an entry changes nothing. */
  lemma ZeroSwapInside(m: Matrix, list: seq<nat>, k: nat, lo: nat, hi: nat, a: nat, b: nat)
    requires m.Shaped() && m.Lists(list) && k < m.columns && lo <= a < hi <= |list| && lo <= b < hi
    requires ZeroAt(m, list, k, lo, hi)
    ensures m.Lists(Swapped(list, a, b)) && ZeroAt(m, Swapped(list, a, b), k, lo, hi)
  {
    hide BitsRow, MixedRow, HeavyRow;
  }

  /** What must hold of the list before row list[k], held as bits, clears column k:
      positions (k, j] have it clear, bit rows come before limit and byte rows after. */
  ghost predicate LightTurn(m: Matrix, list: seq<nat>, k: nat, j: nat, limit: nat)
    requires m.Shaped() && m.Lists(list)
  {
    && k <= j < limit <= |list| && k < m.columns
    && (forall p :: k <= p < limit ==> list[p] < |m.ge| && (m.heavyIn ==> list[p] < m.light))
    && (if m.heavyIn then m.first <= k else k < m.first && limit == |list|)
    && (forall p :: limit <= p < |list| ==> m.light <= list[p])
    && ZeroAt(m, list, k, k + 1, j + 1)
    && m.ge[list[k]][k]
  }

  /** Both passes of a bit pivot. */
  ghost predicate ClearedByLight(m: Matrix, m': Matrix, list: seq<nat>, k: nat, j: nat, limit: nat)
    requires m.Shaped() && m.Lists(list)
  {
    && LightTurn(m, list, k, j, limit)
    && var m1 := m.(ge := m'.ge);
      LightPass(m, m1, list, k, list[k], j + 1, limit)
      && if limit < |list| then MixedPass(m1, m', list, k, list[k], limit) else m' == m1
  }

  /** What must hold of the list before row list[k], held as bytes, clears column k. */
  ghost predicate HeavyTurn(m: Matrix, list: seq<nat>, k: nat, j: nat)
    requires m.Shaped() && m.Lists(list)
  {
    && k <= j < |list| && m.first <= k < m.columns
    && m.heavyIn && m.light <= list[k]
    && m.heavy[list[k] - m.light][k - m.first] != ZERO
    && ZeroAt(m, list, k, k + 1, j + 1)
    && (forall p :: j < p < |list| ==> m.light <= list[p])
  }

  lemma RowBytes(m: Matrix, m': Matrix, r: nat)
    requires m.Shaped() && m.heavyIn && m.light <= r < m.RowCount()
    requires m'.Shaped() && m' == m.(ge := m'.ge, heavy := m'.heavy)
    requires r < |m.ge| ==> m'.ge[r] == m.ge[r]
    ensures Holds(m.Row(r), m.heavy[r - m.light], m.first)
    ensures Holds(m'.Row(r), m'.heavy[r - m.light], m.first)
    ensures forall c :: 0 <= c < m.first ==> m'.Row(r)[c] == m.Row(r)[c]
  {}

  lemma RowClearedByLight(m: Matrix, m': Matrix, list: seq<nat>, k: nat, j: nat, limit: nat, p: nat)
    requires m.Shaped() && m.Lists(list)
    requires ClearedByLight(m, m', list, k, j, limit) && p < |list|
    ensures p <= k ==> m'.Row(list[p]) == m.Row(list[p])
    ensures k < p ==> Eliminated(m.Row(list[p]), BitsRow(m.ge[list[k]]), m'.Row(list[p]), k)
  {
    hide Add, Mul, Eliminated, ClearLight, ClearByLight, BitsRow, MixedRow, HeavyRow;
    if k < p <= j {
      NotNeeded(m.Row(list[p]), BitsRow(m.ge[list[k]]), k);
    } else if j < p < limit {
      ClearLightEliminates(m.ge[list[p]], m.ge[list[k]], k);
    } else if limit <= p {
      RowBytes(m, m', list[p]);
      ClearByLightEliminates(m.Row(list[p]), m'.Row(list[p]), m.heavy[list[p] - m.light], m.ge[list[k]], m.first,
        k - m.first);
    }
  }

  lemma SoundClearByLight(m: Matrix, m': Matrix, list: seq<nat>, orig: seq<Vec>, upper: seq<Vec>, j: nat, limit: nat)
    requires Sound(m, list, orig, upper)
    requires ClearedByLight(m, m', list, |upper|, j, limit)
    ensures Sound(m', list, orig, upper + [BitsRow(m.ge[list[|upper|]])])
  {
    hide Add, Mul, LuSum, LuRow, Eliminated;
    var k := |upper|;
    var rows, rows' := m.Rows(list), m'.Rows(list);
    var piv := BitsRow(m.ge[list[k]]);
    assert rows[k] == piv;
    BitSet(m.ge[list[k]], k);
    forall p | 0 <= p < |list|
      ensures p <= k ==> rows'[p] == rows[p]
      ensures k < p ==> Eliminated(rows[p], piv, rows'[p], k)
    {
      RowClearedByLight(m, m', list, k, j, limit, p);
    }
    hide BitsRow, MixedRow, HeavyRow, ClearLight, ClearByLight;
    assert Factoring(Select(orig, list), rows', upper + [piv], m.columns) by {
      hide ClearedByLight, UsedAgree, HeavyFresh, Distinct;
      FactoringStep(Select(orig, list), rows, rows', upper, m.columns);
    }
    hide Factoring;
    assert UsedAgree(m', list, k + 1);
  }

  lemma BitSet(bits: Bits, k: nat)
    requires k < |bits|
    ensures BitsRow(bits)[k] != ZERO <==> bits[k]
  {}

  lemma RowClearedByHeavy(m: Matrix, m': Matrix, list: seq<nat>, k: nat, j: nat, p: nat)
    requires m.Shaped() && m.Lists(list) && HeavyTurn(m, list, k, j)
    requires HeavyPass(m, m', list, k, list[k] - m.light, j + 1) && p < |list|
    ensures p <= k ==> m'.Row(list[p]) == m.Row(list[p])
    ensures k < p ==> Eliminated(m.Row(list[p]), m.Row(list[k]), m'.Row(list[p]), k)
  {
    hide Add, Mul, Eliminated, ClearByHeavy, BitsRow, MixedRow, HeavyRow;
    if k < p <= j {
      NotNeeded(m.Row(list[p]), m.Row(list[k]), k);
    } else if j < p {
      RowBytes(m, m', list[p]);
      RowBytes(m, m', list[k]);
      ClearByHeavyEliminates(m.Row(list[p]), m'.Row(list[p]), m.heavy[list[p] - m.light],
        m.Row(list[k]), m.heavy[list[k] - m.light], m.first, k - m.first);
    }
  }

  lemma SoundClearByHeavy(m: Matrix, m': Matrix, list: seq<nat>, orig: seq<Vec>, upper: seq<Vec>, j: nat)
    requires Sound(m, list, orig, upper)
    requires HeavyTurn(m, list, |upper|, j)
    requires HeavyPass(m, m', list, |upper|, list[|upper|] - m.light, j + 1)
    ensures Sound(m', list, orig, upper + [m.Row(list[|upper|])])
  {
    hide Add, Mul, LuSum, LuRow, Eliminated;
    var k := |upper|;
    var rows, rows' := m.Rows(list), m'.Rows(list);
    RowBytes(m, m', list[k]);
    assert rows[k][m.first + (k - m.first)] != ZERO;
    forall p | 0 <= p < |list|
      ensures p <= k ==> rows'[p] == rows[p]
      ensures k < p ==> Eliminated(rows[p], rows[k], rows'[p], k)
    {
      RowClearedByHeavy(m, m', list, k, j, p);
    }
    hide BitsRow, MixedRow, HeavyRow, ClearByHeavy;
    assert Factoring(Select(orig, list), rows', upper + [rows[k]], m.columns) by {
      hide HeavyPass, HeavyTurn, UsedAgree, HeavyFresh, Distinct;
      FactoringStep(Select(orig, list), rows, rows', upper, m.columns);
    }
    hide Factoring;
    assert UsedAgree(m', list, k + 1);
  }

  /** The bytes a bit row becomes from the first heavy column on. */
  function ToBytes(bits: Bits, first: nat): (r: Vec)
    requires first <= |bits|
    ensures |r| == |bits| - first
  {
    seq(|bits| - first, c requires 0 <= c < |bits| - first => If(bits[first + c], ONE))
  }

  /** The listed extra rows have their bytes, and nothing else has changed. */
  ghost predicate Converted(m: Matrix, m': Matrix, list: seq<nat>)
    requires m.Shaped() && m.Lists(list)
  {
    && m'.Shaped() && m' == m.(heavy := m'.heavy, heavyIn := true)
    && (forall p :: 0 <= p < |list| && m.light <= list[p] < m.light + m.extra ==>
          m'.heavy[list[p] - m.light] == ToBytes(m.ge[list[p]], m.first))
    && (forall h :: m.extra <= h < |m.heavy| ==> m'.heavy[h] == m.heavy[h])
  }

  lemma SoundConvert(m: Matrix, m': Matrix, list: seq<nat>, orig: seq<Vec>, upper: seq<Vec>)
    requires Sound(m, list, orig, upper) && !m.heavyIn
    requires Converted(m, m', list)
    ensures Sound(m', list, orig, upper) && HeavyFresh(m', orig)
    ensures m'.Rows(list) == m.Rows(list)
  {
    hide Add, Mul, LuSum, LuRow;
    forall p | 0 <= p < |list| ensures m'.Row(list[p]) == m.Row(list[p]) {
      var r := list[p];
      if m.light <= r {
        assert MixedRow(m.ge[r], ToBytes(m.ge[r], m.first), m.first) == BitsRow(m.ge[r]);
      }
    }
    assert m'.Rows(list) == m.Rows(list);
    hide BitsRow, MixedRow, HeavyRow, Factoring;
  }

  /** A heavy row joins the list with no column eliminated from it and none to eliminate. */
  lemma SoundAppendHeavy(m: Matrix, list: seq<nat>, orig: seq<Vec>, upper: seq<Vec>, r: nat)
    requires Sound(m, list, orig, upper) && m.heavyIn && HeavyFresh(m, orig)
    requires |upper| <= m.first && m.light + m.extra <= r < m.RowCount()
    requires r !in list
    ensures Sound(m, list + [r], orig, upper)
  {
    hide Add, Mul, LuSum, LuRow;
    var list' := list + [r];
    var row := m.Row(r);
    assert orig[r] == row;
    LuStart(row, upper, |upper|);
    FactoringAppend(Select(orig, list), m.Rows(list), upper, m.columns, row, row);
    assert Select(orig, list') == Select(orig, list) + [row];
    assert m.Rows(list') == m.Rows(list) + [row];
    hide BitsRow, MixedRow, HeavyRow, Factoring;
    assert UsedAgree(m, list', |upper|);
  }

  /** The next pivot is taken from position |upper| when no other row has that column. */
  lemma SoundTake(m: Matrix, list: seq<nat>, orig: seq<Vec>, upper: seq<Vec>)
    requires Sound(m, list, orig, upper) && |upper| < |list| && |upper| < m.columns
    requires m.Row(list[|upper|])[|upper|] != ZERO
    requires forall p :: |upper| < p < |list| ==> m.Row(list[p])[|upper|] == ZERO
    requires if m.heavyIn then m.first <= |upper| else |upper| < m.first
    ensures Sound(m, list, orig, upper + [m.Row(list[|upper|])])
  {
    hide Add, Mul, LuSum, LuRow;
    FactoringTake(Select(orig, list), m.Rows(list), upper, m.columns);
    hide BitsRow, MixedRow, HeavyRow, Factoring;
    assert UsedAgree(m, list, |upper| + 1);
  }

  /** Only row r of either matrix differs. */
  ghost predicate OnlyRow(m: Matrix, m': Matrix, r: nat)
    requires m.Shaped()
  {
    && m.light <= r < m.light + m.extra
    && m'.Shaped() && m' == m.(ge := m'.ge, heavy := m'.heavy)
    && (forall i :: 0 <= i < |m.ge| && i != r ==> m'.ge[i] == m.ge[i])
    && (forall i :: 0 <= i < |m.heavy| && i != r - m.light ==> m'.heavy[i] == m.heavy[i])
  }

  lemma OtherRows(m: Matrix, m': Matrix, r: nat, i: nat)
    requires m.Shaped() && OnlyRow(m, m', r) && i < m.RowCount() && i != r
    ensures m'.Row(i) == m.Row(i)
  {}

  /** The original of unused row r is replaced together with its contents. */
  lemma FactoringReplace(m: Matrix, m': Matrix, list: seq<nat>, orig: seq<Vec>, upper: seq<Vec>, r: nat, o: Vec, q: nat)
    requires Sound(m, list, orig, upper) && OnlyRow(m, m', r)
    requires |upper| <= q < |list| && list[q] == r
    requires LuRow(o, m'.Row(r), upper, |upper|)
    ensures Factoring(Select(orig[r := o], list), m'.Rows(list), upper, m.columns)
  {
    hide Add, Mul, LuSum, LuRow, BitsRow, MixedRow, HeavyRow, UsedAgree, HeavyFresh;
    forall p | 0 <= p < |list| && p != q
      ensures list[p] != r && m'.Row(list[p]) == m.Row(list[p])
    {
      OtherRows(m, m', r, list[p]);
    }
    var rows, rows' := m.Rows(list), m'.Rows(list);
    var os, os' := Select(orig, list), Select(orig[r := o], list);
    hide Distinct;
    assert forall p :: 0 <= p < |list| && p != q ==> rows'[p] == rows[p] && os'[p] == os[p];
    assert rows'[q] == m'.Row(r) && os'[q] == o;
    forall p | 0 <= p < |rows'| ensures LuRow(os'[p], rows'[p], upper, Min(p, |upper|)) {
      assert LuRow(os[p], rows[p], upper, Min(p, |upper|));
    }
  }

  lemma SoundReplace(m: Matrix, m': Matrix, list: seq<nat>, orig: seq<Vec>, upper: seq<Vec>, r: nat, o: Vec, q: nat)
    requires Sound(m, list, orig, upper) && OnlyRow(m, m', r)
    requires |upper| <= q < |list| && list[q] == r && |o| == m.columns
    requires LuRow(o, m'.Row(r), upper, |upper|)
    ensures Sound(m', list, orig[r := o], upper)
  {
    hide Add, Mul, LuSum, LuRow;
    FactoringReplace(m, m', list, orig, upper, r, o, q);
    hide Factoring, BitsRow, MixedRow, HeavyRow;
    assert UsedAgree(m', list, |upper|) by {
      forall j | 0 <= j < |upper| && j < m.first ensures m'.Row(list[j]) == m.Row(list[j]) {
        OtherRows(m, m', r, list[j]);
      }
    }
  }

  lemma SoundAppend(m: Matrix, m': Matrix, list: seq<nat>, orig: seq<Vec>, upper: seq<Vec>, r: nat, o: Vec)
    requires Sound(m, list, orig, upper) && OnlyRow(m, m', r)
    requires r !in list && |o| == m.columns
    requires LuRow(o, m'.Row(r), upper, |upper|)
    ensures Sound(m', list + [r], orig[r := o], upper)
  {
    hide Add, Mul, LuSum, LuRow;
    var list' := list + [r];
    forall p | 0 <= p < |list| ensures m'.Row(list[p]) == m.Row(list[p]) {
      OtherRows(m, m', r, list[p]);
    }
    hide BitsRow, MixedRow, HeavyRow;
    FactoringAppend(Select(orig, list), m.Rows(list), upper, m.columns, o, m'.Row(r));
    assert Select(orig[r := o], list') == Select(orig, list) + [o];
    assert m'.Rows(list') == m.Rows(list) + [m'.Row(r)];
    hide Factoring;
    assert UsedAgree(m', list', |upper|);
  }

  /** Writing the bytes of rows not yet held as bytes changes no row. */
  lemma SoundBeforeHeavy(m: Matrix, m': Matrix, list: seq<nat>, orig: seq<Vec>, upper: seq<Vec>)
    requires Sound(m, list, orig, upper) && !m.heavyIn
    requires m'.Shaped() && m' == m.(heavy := m'.heavy)
    requires forall h :: m.extra <= h < |m.heavy| ==> m'.heavy[h] == m.heavy[h]
    ensures Sound(m', list, orig, upper)
  {
    hide Add, Mul, LuSum, LuRow;
    assert m'.Rows(list) == m.Rows(list);
    hide BitsRow, MixedRow, HeavyRow, Factoring;
  }

  lemma SoundInit(m: Matrix, list: seq<nat>, orig: seq<Vec>)
    requires m.Shaped() && m.Lists(list) && Distinct(list) && !m.heavyIn
    requires |orig| == m.RowCount() && forall r :: 0 <= r < |orig| ==> |orig[r]| == m.columns
    requires forall p :: 0 <= p < |list| ==> orig[list[p]] == m.Row(list[p])
    requires HeavyFresh(m, orig)
    ensures Sound(m, list, orig, [])
  {
    hide Add, Mul, LuSum, LuRow, BitsRow, MixedRow, HeavyRow;
    var rows := m.Rows(list);
    forall p | 0 <= p < |list| ensures LuRow(Select(orig, list)[p], rows[p], [], 0) {
      LuStart(rows[p], [], 0);
    }
  }

  lemma SoundBounds(m: Matrix, list: seq<nat>, orig: seq<Vec>, upper: seq<Vec>)
    requires Sound(m, list, orig, upper)
    ensures |upper| <= |list| && |upper| <= m.columns && |orig| == m.RowCount()
    ensures !m.heavyIn ==> |upper| <= m.first
  {}

  /** The listed extra rows at positions [lo, hi) have their bytes. */
  ghost predicate HasBytes(m: Matrix, list: seq<nat>, lo: nat, hi: nat)
    requires m.Shaped() && m.Lists(list) && hi <= |list|
  {
    forall p :: lo <= p < hi && m.light <= list[p] < m.light + m.extra ==>
      m.heavy[list[p] - m.light] == ToBytes(m.ge[list[p]], m.first)
  }

  lemma HasBytesSwap(m: Matrix, list: seq<nat>, lo: nat, a: nat, b: nat)
    requires m.Shaped() && m.Lists(list) && lo <= a <= b < |list| && HasBytes(m, list, lo, |list|)
    ensures m.Lists(Swapped(list, a, b)) && HasBytes(m, Swapped(list, a, b), lo, |list|)
  {
    hide ToBytes;
  }

  /** From position j on, the unused bit rows come before first and the byte rows from it on. */
  ghost predicate Parted(list: seq<nat>, light: nat, j: nat, first: nat, used: nat) {
    && used <= first <= |list| && j <= first
    && (forall p :: first <= p < |list| ==> light <= list[p])
    && (forall p :: j <= p < first && used <= p ==> list[p] < light)
  }

  lemma PartedSwap(list: seq<nat>, light: nat, j: nat, first: nat, used: nat)
    requires Parted(list, light, j + 1, first, used) && used <= j && light <= list[j]
    ensures Parted(Swapped(list, j, first - 1), light, j, first - 1, used)
  {}

  /** No listed row has an index in [lo, hi). */
  ghost predicate NoneIn(list: seq<nat>, lo: nat, hi: nat) {
    forall p :: 0 <= p < |list| ==> list[p] < lo || hi <= list[p]
  }

  /** Every row below this one is listed. */
  ghost predicate HasAll(list: seq<nat>, light: nat) {
    forall r: nat :: r < light ==> r in list
  }

  /** As many rows are listed from one on. */
  ghost predicate HasFrom(list: seq<nat>, first: nat, count: nat) {
    forall r: nat :: first <= r < first + count ==> r in list
  }

  lemma HasFromSwap(list: seq<nat>, first: nat, count: nat, i: nat, j: nat)
    requires HasFrom(list, first, count) && i < |list| && j < |list|
    ensures HasFrom(Swapped(list, i, j), first, count)
  {
    forall r: nat | first <= r < first + count ensures r in Swapped(list, i, j) {
      assert r in list;
      var p :| 0 <= p < |list| && list[p] == r;
      assert Swapped(list, i, j)[if p == i then j else if p == j then i else p] == r;
    }
  }

  lemma HasFromAppend(list: seq<nat>, first: nat, count: nat, r: nat)
    requires HasFrom(list, first, count)
    ensures HasFrom(list + [r], first, count) && (r == first + count ==> HasFrom(list + [r], first, count + 1))
  {}

  lemma HasFromNone(list: seq<nat>, first: nat)
    ensures HasFrom(list, first, 0)
  {}

  lemma HasAllSwap(list: seq<nat>, light: nat, i: nat, j: nat)
    requires HasAll(list, light) && i < |list| && j < |list|
    ensures HasAll(Swapped(list, i, j), light)
  {
    forall r: nat | r < light ensures r in Swapped(list, i, j) {
      assert r in list;
      var p :| 0 <= p < |list| && list[p] == r;
      assert Swapped(list, i, j)[if p == i then j else if p == j then i else p] == r;
    }
  }

  lemma HasAllAppend(list: seq<nat>, light: nat, r: nat)
    requires HasAll(list, light)
    ensures HasAll(list + [r], light) && (r == light ==> HasAll(list + [r], light + 1))
  {}

  lemma HasAllLess(list: seq<nat>, light: nat, less: nat)
    requires HasAll(list, light) && less <= light
    ensures HasAll(list, less)
  {}

  lemma HasAllStart(list: seq<nat>, light: nat)
    requires |list| == light && forall p :: 0 <= p < |list| ==> list[p] == p
    ensures HasAll(list, light)
  {
    forall r: nat | r < light ensures r in list { assert list[r] == r; }
  }

  lemma NoneInStart(list: seq<nat>, lo: nat, hi: nat)
    requires forall p :: 0 <= p < |list| ==> list[p] == p && p < lo
    ensures NoneIn(list, lo, hi)
  {}

  lemma NoneInSwap(list: seq<nat>, lo: nat, hi: nat, i: nat, j: nat)
    requires NoneIn(list, lo, hi) && i < |list| && j < |list|
    ensures NoneIn(Swapped(list, i, j), lo, hi)
  {}

  lemma NoneInAppend(list: seq<nat>, lo: nat, hi: nat, r: nat)
    requires NoneIn(list, lo, hi) && (r < lo || hi <= r)
    ensures NoneIn(list + [r], lo, hi)
  {}

  // ---------- A row that arrives late ----------

  /** The pivot of a column before the heavy ones is the bits of its row. */
  lemma LightPivotRow(m: Matrix, list: seq<nat>, orig: seq<Vec>, upper: seq<Vec>, j: nat)
    requires Sound(m, list, orig, upper) && j < |upper| && j < m.first
    ensures j < |list| && list[j] < |m.ge| && upper[j] == BitsRow(m.ge[list[j]]) && m.ge[list[j]][j]
  {
    hide Add, Mul, LuSum, LuRow;
    BitSet(m.ge[list[j]], j);
  }

  /** The pivot of a heavy column: bits of a light row, or bytes with a non-zero diagonal. */
  lemma HeavyPivotRow(m: Matrix, list: seq<nat>, orig: seq<Vec>, upper: seq<Vec>, j: nat)
    requires Sound(m, list, orig, upper) && m.heavyIn && m.first <= j < |upper|
    ensures j < |list| && list[j] < m.RowCount()
    ensures list[j] < m.light ==> upper[j] == BitsRow(m.ge[list[j]]) && m.ge[list[j]][j]
    ensures m.light <= list[j] ==>
      Holds(upper[j], m.heavy[list[j] - m.light], m.first) && m.heavy[list[j] - m.light][j - m.first] != ZERO
  {
    hide Add, Mul, LuSum, LuRow;
    assert upper[j] == m.Row(list[j]) && upper[j][j] != ZERO;
    if list[j] < m.light {
      BitSet(m.ge[list[j]], j);
    } else {
      RowBytes(m, m, list[j]);
      assert upper[j][m.first + (j - m.first)] == m.heavy[list[j] - m.light][j - m.first];
    }
  }

  /** One more of the pivots already chosen is eliminated from a new row. */
  lemma LuStepAt(o: Vec, row: Vec, row': Vec, upper: seq<Vec>, j: nat)
    requires j < |upper| && LuRow(o, row, upper[..j], j)
    requires Eliminated(row, upper[j], row', j)
    ensures LuRow(o, row', upper[..j + 1], j + 1)
  {
    hide Add, Mul, LuSum, LuRow, Eliminated;
    LuStep(o, row, upper[j], row', upper[..j]);
    assert upper[..j] + [upper[j]] == upper[..j + 1];
  }

  lemma ToBytesMixes(bits: Bits, first: nat)
    requires first <= |bits|
    ensures MixedRow(bits, ToBytes(bits, first), first) == BitsRow(bits)
  {}

  lemma MixedHolds(bits: Bits, bytes: Vec, first: nat)
    requires first + |bytes| == |bits|
    ensures Holds(MixedRow(bits, bytes, first), bytes, first)
  {}

  lemma MixedPrefix(bits: Bits, bytes: Vec, bytes': Vec, first: nat)
    requires first + |bytes| == |bits| && |bytes'| == |bytes|
    ensures forall c :: 0 <= c < first ==> MixedRow(bits, bytes', first)[c] == MixedRow(bits, bytes, first)[c]
  {}

  lemma NoneInGrow(list: seq<nat>, lo: nat, hi: nat)
    requires NoneIn(list, lo, hi)
    ensures NoneIn(list, lo + 1, hi) && NoneIn(list + [lo], lo + 1, hi)
  {}

  lemma ZeroJoinAt(m: Matrix, list: seq<nat>, k: nat, slot: nat)
    requires m.Shaped() && m.Lists(list) && k < m.columns && slot < |list|
    requires ZeroAt(m, list, k, k, slot) && ZeroAt(m, list, k, slot + 1, |list|)
    requires m.Row(list[slot])[k] == ZERO
    ensures ZeroAt(m, list, k, k, |list|)
  {}

  /** The new row gi does not disturb the column of the others. */
  lemma OthersZero(m: Matrix, m': Matrix, list: seq<nat>, k: nat, gi: nat, slot: nat)
    requires m.Shaped() && m.Lists(list) && k < m.columns && k <= |list| && Distinct(list) && OnlyRow(m, m', gi)
    requires k <= slot < |list| && list[slot] == gi && ZeroAt(m, list, k, k, |list|)
    ensures ZeroAt(m', list, k, k, slot) && ZeroAt(m', list, k, slot + 1, |list|)
  {
    hide BitsRow, MixedRow, HeavyRow;
    forall p | k <= p < |list| && p != slot ensures m'.Row(list[p]) == m.Row(list[p]) {
      OtherRows(m, m', gi, list[p]);
    }
  }

  lemma OthersZeroAppend(m: Matrix, m': Matrix, list: seq<nat>, k: nat, gi: nat)
    requires m.Shaped() && m.Lists(list) && k < m.columns && k <= |list| && OnlyRow(m, m', gi)
    requires gi !in list && ZeroAt(m, list, k, k, |list|)
    ensures m'.Lists(list + [gi])
    ensures ZeroAt(m', list + [gi], k, k, |list|) && ZeroAt(m', list + [gi], k, |list| + 1, |list| + 1)
  {
    hide BitsRow, MixedRow, HeavyRow;
    forall p | 0 <= p < |list| ensures m'.Row(list[p]) == m.Row(list[p]) {
      OtherRows(m, m', gi, list[p]);
    }
  }

  lemma NoneInFirst(list: seq<nat>, lo: nat, hi: nat)
    requires NoneIn(list, lo, hi) && lo < hi
    ensures lo !in list
  {}

  /** Among the unused rows, from position used on, bit rows come before end and byte rows after. */
  ghost predicate ByteRowsLast(list: seq<nat>, used: nat, end: nat, light: nat) {
    && end <= |list|
    && (forall p :: used <= p < end ==> list[p] < light)
    && (forall p :: used <= p < |list| && end <= p ==> light <= list[p])
  }

  lemma ByteRowsLastLight(list: seq<nat>, i: nat, j: nat, end: nat, light: nat)
    requires ByteRowsLast(list, i, end, light) && i <= j < end
    ensures end <= |list| && ByteRowsLast(Swapped(list, i, j), i + 1, end, light)
    ensures forall p :: i <= p < end ==> Swapped(list, i, j)[p] < light
    ensures forall p :: end <= p < |list| ==> light <= Swapped(list, i, j)[p]
  {}

  /** A byte row taken at position j: a light row it displaces goes to the end of the light rows. */
  lemma ByteRowsLastHeavy(list: seq<nat>, i: nat, j: nat, end: nat, light: nat)
    requires ByteRowsLast(list, i, end, light) && i <= j < |list| && light <= list[j]
    ensures end <= j
    ensures i < end ==> ByteRowsLast(Swapped(Swapped(list, i, j), end, j), i + 1, end + 1, light)
    ensures i >= end ==> ByteRowsLast(Swapped(list, i, j), i + 1, end, light)
    ensures i < end ==> Swapped(Swapped(list, i, j), end, j)[i] == list[j]
  {}

  lemma ZeroSwapOut(m: Matrix, list: seq<nat>, k: nat, slot: nat)
    requires m.Shaped() && m.Lists(list) && k < m.columns && k <= slot < |list|
    requires ZeroAt(m, list, k, k, slot) && ZeroAt(m, list, k, slot + 1, |list|)
    ensures m.Lists(Swapped(list, k, slot)) && ZeroAt(m, Swapped(list, k, slot), k, k + 1, |list|)
    ensures Swapped(list, k, slot)[k] == list[slot]
  {
    hide BitsRow, MixedRow, HeavyRow;
  }

  lemma ZeroAbove(m: Matrix, list: seq<nat>, k: nat)
    requires m.Shaped() && m.Lists(list) && k < m.columns && ZeroAt(m, list, k, k + 1, |list|)
    ensures forall p :: k < p < |list| ==> m.Row(list[p])[k] == ZERO
  {}

  /** With a pivot for every column: the chosen rows are factored. */
  lemma SoundFactored(m: Matrix, list: seq<nat>, orig: seq<Vec>, upper: seq<Vec>)
    requires Sound(m, list, orig, upper) && |upper| == m.columns
    ensures |list| >= m.columns && Factored(Select(orig, list)[..m.columns], upper, m.columns)
    ensures forall i :: 0 <= i < m.columns ==> upper[i] == m.Row(list[i]) && upper[i][i] != ZERO
  {
    hide Add, Mul, LuSum, LuRow, BitsRow, MixedRow, HeavyRow;
    var origs, rows := Select(orig, list), m.Rows(list);
    forall i | 0 <= i < m.columns ensures LuRow(origs[i], upper[i], upper, i) {
      assert LuRow(origs[i], rows[i], upper, Min(i, |upper|));
    }
  }
}

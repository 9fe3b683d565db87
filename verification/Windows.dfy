/** Tables of all sums of a few neighbouring values, indexed by the bits that select them. */
module Windows {
  import opened GF256
  import opened Linear
  import opened Elimination
  import opened Rows
  import opened Spans
  import opened Sums

  function Pow2(t: nat): (r: nat)
    ensures r > 0
  {
    if t == 0 then 1 else 2 * Pow2(t - 1)
  }

  /** The sum of those of v[k], v[k + 1], ... whose bit is set in m, a number of w bits. */
  function Selected(v: Vec, k: nat, m: nat, w: nat): Byte
    requires k + w <= |v|
  {
    if w == 0 then ZERO
    else if m >= Pow2(w - 1) then Add(Selected(v, k, m - Pow2(w - 1), w - 1), v[k + w - 1])
    else Selected(v, k, m, w - 1)
  }

  /** Columns k .. k + w - 1 of a row of bits as a number, column k lowest. */
  function Field(row: Bits, k: nat, w: nat): (m: nat)
    requires k + w <= |row|
    ensures m < Pow2(w)
  {
    if w == 0 then 0 else Field(row, k, w - 1) + if row[k + w - 1] then Pow2(w - 1) else 0
  }

  /** Selecting by the bits of a row is that stretch of the row applied to v. */
  lemma {:induction false} SelectedField(row: Bits, u: Vec, v: Vec, k: nat, w: nat)
    requires k + w <= |row| && k + w <= |u| && k + w <= |v|
    requires forall c :: k <= c < k + w ==> u[c] == If(row[c], ONE)
    ensures Selected(v, k, Field(row, k, w), w) == Span(u, v, k, k + w)
  {
    hide Add, Mul;
    if w > 0 {
      SelectedField(row, u, v, k, w - 1);
      MulOne(v[k + w - 1]);
      MulZero(v[k + w - 1]);
      AddZero(Span(u, v, k, k + w - 1));
    }
  }

  lemma SelectedHigh(v: Vec, k: nat, m: nat, w: nat)
    requires k + w + 1 <= |v| && m < Pow2(w)
    ensures Selected(v, k, Pow2(w) + m, w + 1) == Add(Selected(v, k, m, w), v[k + w])
  {}

  lemma {:induction false} SelectedZero(v: Vec, k: nat, w: nat)
    requires k + w <= |v|
    ensures Selected(v, k, 0, w) == ZERO
  {
    if w > 0 { SelectedZero(v, k, w - 1); }
  }

  lemma {:induction false} SelectedAgree(v: Vec, v': Vec, k: nat, m: nat, w: nat)
    requires k + w <= |v| && k + w <= |v'|
    requires forall c :: k <= c < k + w ==> v[c] == v'[c]
    ensures Selected(v, k, m, w) == Selected(v', k, m, w)
  {
    hide Add;
    if w > 0 {
      if m >= Pow2(w - 1) { SelectedAgree(v, v', k, m - Pow2(w - 1), w - 1); }
      else { SelectedAgree(v, v', k, m, w - 1); }
    }
  }

  lemma PowerTable()
    ensures Pow2(0) == 1 && Pow2(1) == 2 && Pow2(2) == 4 && Pow2(3) == 8
    ensures Pow2(4) == 16 && Pow2(5) == 32 && Pow2(6) == 64 && Pow2(7) == 128
  {
    assert Pow2(3) == 2 * Pow2(2);
    assert Pow2(5) == 2 * Pow2(4);
    assert Pow2(7) == 2 * Pow2(6);
  }

  lemma {:induction false} SelectedWide(v: Vec, k: nat, m: nat, t: nat, w: nat)
    requires t <= w && k + w <= |v| && m < Pow2(t)
    ensures Selected(v, k, m, w) == Selected(v, k, m, t)
    decreases w
  {
    hide Add;
    if t < w {
      SelectedWide(v, k, m, t, w - 1);
      PowGrows(t, w - 1);
    }
  }

  lemma {:induction false} PowGrows(t: nat, w: nat)
    requires t <= w
    ensures Pow2(t) <= Pow2(w)
    decreases w
  {
    if t < w { PowGrows(t, w - 1); }
  }

  /** One more bit set on top. */
  lemma SelectedTop(v: Vec, k: nat, m: nat, t: nat, w: nat)
    requires t < w && k + w <= |v| && m < Pow2(t)
    ensures Selected(v, k, Pow2(t) + m, w) == Add(Selected(v, k, m, w), v[k + t])
    ensures Selected(v, k, Pow2(t), w) == v[k + t]
  {
    hide Add;
    SelectedHigh(v, k, m, t);
    SelectedHigh(v, k, 0, t);
    SelectedZero(v, k, t);
    AddZero(v[k + t]);
    SelectedWide(v, k, m, t, w);
    assert Pow2(t + 1) == 2 * Pow2(t);
    SelectedWide(v, k, Pow2(t) + m, t + 1, w);
    SelectedWide(v, k, Pow2(t), t + 1, w);
  }

  // ---------- The table in memory ----------

  const TABLE: nat := 128

  predicate IsPower(m: nat) {
    m == 1 || m == 2 || m == 4 || m == 8 || m == 16 || m == 32 || m == 64
  }

  /** The entries that are not powers of two have spare cells, all different. */
  ghost predicate SpareCells(cells: seq<nat>, table: seq<nat>, size: nat) {
    && |table| == TABLE && size <= TABLE
    && (forall m :: 1 <= m < size && !IsPower(m) ==> table[m] !in cells)
    && (forall l, m :: 1 <= l < m < size && !IsPower(l) && !IsPower(m) ==> table[l] != table[m])
  }

  /** The entries below m hold the sums of the window at k that their bits select; those at powers
      of two are the window's own columns. */
  ghost predicate Filled(cells: seq<nat>, memory: Vec, table: seq<nat>, k: nat, w: nat, m: nat)
    requires Within(cells, |memory|) && k + w <= |cells|
  {
    && |table| == TABLE && m <= TABLE && (forall l :: 1 <= l < m ==> table[l] < |memory|)
    && (forall l :: 1 <= l < m ==> memory[table[l]] == Selected(ValsOf(cells, memory), k, l, w))
    && (forall l :: 1 <= l < m && IsPower(l) ==> table[l] in cells[k..k + w])
  }

  lemma FillSpare(cells: seq<nat>, memory: Vec, table: seq<nat>, k: nat, w: nat, m: nat, size: nat, a: Byte)
    requires Within(cells, |memory|) && k + w <= |cells|
    requires SpareCells(cells, table, size) && 1 <= m < size && !IsPower(m) && table[m] < |memory|
    requires Filled(cells, memory, table, k, w, m) && a == Selected(ValsOf(cells, memory), k, m, w)
    ensures ValsOf(cells, memory[table[m] := a]) == ValsOf(cells, memory)
    ensures Filled(cells, memory[table[m] := a], table, k, w, m + 1)
  {
    hide Selected;
    var memory' := memory[table[m] := a];
    assert ValsOf(cells, memory') == ValsOf(cells, memory) by {
      forall c | 0 <= c < |cells| ensures cells[c] != table[m] { assert cells[c] in cells; }
    }
  }

  lemma FillPower(cells: seq<nat>, memory: Vec, table: seq<nat>, k: nat, w: nat, t: nat, size: nat)
    requires Within(cells, |memory|) && k + w <= |cells| && t < w && w <= 7
    requires SpareCells(cells, table, size) && Filled(cells, memory, table, k, w, Pow2(t))
    ensures Pow2(t) < TABLE && IsPower(Pow2(t))
    ensures SpareCells(cells, table[Pow2(t) := cells[k + t]], size)
    ensures Filled(cells, memory, table[Pow2(t) := cells[k + t]], k, w, Pow2(t) + 1)
  {
    hide Selected, Pow2, IsPower;
    PowerIs(t);
    SelectedTop(ValsOf(cells, memory), k, 0, t, w);
    assert cells[k..k + w][t] == cells[k + t];
  }

  lemma PowerIs(t: nat)
    requires t < 7
    ensures IsPower(Pow2(t)) && Pow2(t) < TABLE
  {
    PowerTable();
    assert t == 0 || t == 1 || t == 2 || t == 3 || t == 4 || t == 5 || t == 6;
  }

  lemma SelectedSeven(v: Vec, k: nat, w: nat)
    requires 3 <= w && k + w <= |v|
    ensures Selected(v, k, 7, w) == Add(Selected(v, k, 1, w), Selected(v, k, 6, w))
  {
    hide Add, Selected;
    PowerTable();
    SelectedTop(v, k, 3, 2, w);
    SelectedTop(v, k, 2, 2, w);
    SelectedTop(v, k, 1, 1, w);
    SelectedTop(v, k, 0, 0, w);
    SelectedTop(v, k, 0, 1, w);
    AddAssoc(v[k], v[k + 1], v[k + 2]);
  }

  /** The table does not change when a column outside the window does. */
  lemma FilledKept(cells: seq<nat>, memory: Vec, table: seq<nat>, k: nat, w: nat, m: nat, i: nat, a: Byte)
    requires Within(cells, |memory|) && NoRepeat(cells) && k + w <= |cells| && i < |cells| && (i < k || k + w <= i)
    requires SpareCells(cells, table, m) && Filled(cells, memory, table, k, w, m)
    ensures Filled(cells, memory[cells[i] := a], table, k, w, m)
  {
    var memory' := memory[cells[i] := a];
    forall l | 1 <= l < m ensures memory'[table[l]] == Selected(ValsOf(cells, memory'), k, l, w) {
      if IsPower(l) {
        var t :| 0 <= t < w && cells[k..k + w][t] == table[l];
        assert table[l] == cells[k + t];
      }
      assert table[l] != cells[i];
      CellSet(cells, memory, i, a);
      SelectedAgree(ValsOf(cells, memory), ValsOf(cells, memory'), k, l, w);
    }
  }
}

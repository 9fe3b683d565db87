/** One run of elimination seen in pivot order: which rows are listed, what
    they were, what is left of them, and the upper rows chosen so far. */
module Progress {
  import opened GF256
  import opened Linear

  function Min(a: nat, b: nat): nat { if a < b then a else b }

  /** Each listed row obeys the LU identity up to its own position or the pivots chosen,
      whichever comes first, and the chosen rows have a non-zero diagonal. */
  ghost predicate Factoring(origs: seq<Vec>, rows: seq<Vec>, upper: seq<Vec>, n: nat) {
    && |origs| == |rows| && |upper| <= |rows| && |upper| <= n
    && (forall p :: 0 <= p < |rows| ==> |rows[p]| == n)
    && (forall j :: 0 <= j < |upper| ==> |upper[j]| == n)
    && (forall j :: 0 <= j < |upper| ==> upper[j] == rows[j] && rows[j][j] != ZERO)
    && (forall p {:trigger LuRow(origs[p], rows[p], upper, Min(p, |upper|))} ::
          0 <= p < |rows| ==> LuRow(origs[p], rows[p], upper, Min(p, |upper|)))
  }

  lemma FactoringStep(origs: seq<Vec>, rows: seq<Vec>, rows': seq<Vec>, upper: seq<Vec>, n: nat)
    requires Factoring(origs, rows, upper, n)
    requires |rows'| == |rows| && |upper| < |rows| && |upper| < n
    requires rows[|upper|][|upper|] != ZERO
    requires forall p :: 0 <= p <= |upper| ==> rows'[p] == rows[p]
    requires forall p :: |upper| < p < |rows| ==> Eliminated(rows[p], rows[|upper|], rows'[p], |upper|)
    ensures Factoring(origs, rows', upper + [rows[|upper|]], n)
  {
    hide Add, Mul, LuSum, LuRow;
    var k := |upper|;
    var piv := rows[k];
    var upper' := upper + [piv];
    forall p | 0 <= p < |rows| ensures LuRow(origs[p], rows'[p], upper', Min(p, |upper'|)) {
      assert LuRow(origs[p], rows[p], upper, Min(p, |upper|));
      if p <= k {
        LuExtend(origs[p], rows[p], upper, piv, p);
      } else {
        LuStep(origs[p], rows[p], piv, rows'[p], upper);
      }
    }
  }

  lemma FactoringAppend(origs: seq<Vec>, rows: seq<Vec>, upper: seq<Vec>, n: nat, o: Vec, r: Vec)
    requires Factoring(origs, rows, upper, n)
    requires |r| == n && LuRow(o, r, upper, |upper|)
    ensures Factoring(origs + [o], rows + [r], upper, n)
  {
    hide Add, Mul, LuSum, LuRow;
    var origs', rows' := origs + [o], rows + [r];
    forall p | 0 <= p < |rows'| ensures LuRow(origs'[p], rows'[p], upper, Min(p, |upper|)) {
      if p < |rows| {
        assert LuRow(origs[p], rows[p], upper, Min(p, |upper|));
      }
    }
  }

  /** Rows not yet used as pivots may change places. */
  lemma FactoringSwap(origs: seq<Vec>, rows: seq<Vec>, origs': seq<Vec>, rows': seq<Vec>, upper: seq<Vec>, n: nat,
    i: nat, j: nat)
    requires Factoring(origs, rows, upper, n)
    requires |upper| <= i <= j < |rows| && |rows'| == |rows| && |origs'| == |origs|
    requires forall p :: 0 <= p < |rows| ==> rows'[p] == rows[if p == i then j else if p == j then i else p]
    requires forall p :: 0 <= p < |rows| ==> origs'[p] == origs[if p == i then j else if p == j then i else p]
    ensures Factoring(origs', rows', upper, n)
  {
    hide Add, Mul, LuSum, LuRow;
    forall p | 0 <= p < |rows'| ensures LuRow(origs'[p], rows'[p], upper, Min(p, |upper|)) {
      var q := if p == i then j else if p == j then i else p;
      assert LuRow(origs[q], rows[q], upper, Min(q, |upper|));
    }
  }

  /** When no other row needs it, a pivot is taken without touching them. */
  lemma FactoringTake(origs: seq<Vec>, rows: seq<Vec>, upper: seq<Vec>, n: nat)
    requires Factoring(origs, rows, upper, n)
    requires |upper| < |rows| && |upper| < n
    requires rows[|upper|][|upper|] != ZERO
    requires forall p :: |upper| < p < |rows| ==> rows[p][|upper|] == ZERO
    ensures Factoring(origs, rows, upper + [rows[|upper|]], n)
  {
    hide Add, Mul, LuSum, LuRow, Eliminated;
    forall p | |upper| < p < |rows| ensures Eliminated(rows[p], rows[|upper|], rows[p], |upper|) {
      NotNeeded(rows[p], rows[|upper|], |upper|);
    }
    FactoringStep(origs, rows, rows, upper, n);
  }
}

/** Sums over ranges of GE columns: what forward and back substitution have done so far. */
module Spans {
  import opened GF256
  import opened Linear
  import opened Rows
  import opened Sums
  import opened Triangular

  /** The products of u and v at positions lo .. hi - 1. */
  function Span(u: Vec, v: Vec, lo: nat, hi: nat): Byte
    requires hi <= |u| && hi <= |v|
    decreases hi
  {
    if hi <= lo then ZERO else Add(Span(u, v, lo, hi - 1), Mul(u[hi - 1], v[hi - 1]))
  }

  lemma {:induction false} SpanDot(u: Vec, v: Vec, hi: nat)
    requires hi <= |u| && hi <= |v|
    ensures Span(u, v, 0, hi) == Dot(u, v, hi)
  {
    hide Add, Mul;
    if hi > 0 { SpanDot(u, v, hi - 1); }
  }

  lemma {:induction false} SpanAgree(u: Vec, u': Vec, v: Vec, v': Vec, lo: nat, hi: nat)
    requires hi <= |u| && hi <= |v| && hi <= |u'| && hi <= |v'|
    requires forall j :: lo <= j < hi ==> u[j] == u'[j] && v[j] == v'[j]
    ensures Span(u, v, lo, hi) == Span(u', v', lo, hi)
  {
    hide Add, Mul;
    if hi > lo { SpanAgree(u, u', v, v', lo, hi - 1); }
  }

  lemma {:induction false} SpanSplit(u: Vec, v: Vec, lo: nat, mid: nat, hi: nat)
    requires lo <= mid <= hi <= |u| && hi <= |v|
    ensures Span(u, v, lo, hi) == Add(Span(u, v, lo, mid), Span(u, v, mid, hi))
  {
    hide Add, Mul;
    if mid == hi {
      AddZero(Span(u, v, lo, mid));
    } else {
      SpanSplit(u, v, lo, mid, hi - 1);
      AddAssoc(Span(u, v, lo, mid), Span(u, v, mid, hi - 1), Mul(u[hi - 1], v[hi - 1]));
    }
  }

  lemma {:induction false} SpanZero(u: Vec, v: Vec, lo: nat, hi: nat)
    requires hi <= |u| && hi <= |v|
    requires forall j :: lo <= j < hi ==> u[j] == ZERO
    ensures Span(u, v, lo, hi) == ZERO
  {
    hide Add, Mul;
    if hi > lo {
      SpanZero(u, v, lo, hi - 1);
      MulZero(v[hi - 1]);
      AddZero(ZERO);
    }
  }

  lemma SpanFirst(u: Vec, v: Vec, lo: nat, hi: nat)
    requires lo < hi <= |u| && hi <= |v|
    ensures Span(u, v, lo, hi) == Add(Mul(u[lo], v[lo]), Span(u, v, lo + 1, hi))
  {
    hide Add, Mul;
    SpanSplit(u, v, lo, lo + 1, hi);
    assert Span(u, v, lo, lo + 1) == Add(Span(u, v, lo, lo), Mul(u[lo], v[lo]));
    AddZero(Mul(u[lo], v[lo]));
  }

  lemma SpanTail(u: Vec, v: Vec, i: nat, n: nat)
    requires i <= n <= |u| && n <= |v|
    ensures Dot(Tail(u, i), v, n) == Span(u, v, i, n)
  {
    hide Add, Mul;
    var t := Tail(u, i);
    SpanDot(t, v, n);
    SpanSplit(t, v, 0, i, n);
    SpanZero(t, v, 0, i);
    SpanAgree(t, u, v, v, i, n);
    AddZero(Span(u, v, i, n));
  }

  ghost predicate Square(up: seq<Vec>, n: nat) {
    |up| == n && forall i :: 0 <= i < n ==> |up[i]| == n
  }

  // ---------- Values in cells ----------

  /** The values in the cells of a list. */
  ghost function ValsOf(cells: seq<nat>, memory: Vec): (v: Vec)
    requires Within(cells, |memory|)
    ensures |v| == |cells|
  {
    seq(|cells|, k requires 0 <= k < |cells| => memory[cells[k]])
  }

  /** No cell outside the list has changed. */
  ghost predicate KeptBut(cells: seq<nat>, before: Vec, after: Vec) {
    |after| == |before| && forall x :: 0 <= x < |after| && x !in cells ==> after[x] == before[x]
  }

  lemma CellSet(cells: seq<nat>, memory: Vec, i: nat, a: Byte)
    requires Within(cells, |memory|) && NoRepeat(cells) && i < |cells|
    ensures ValsOf(cells, memory[cells[i] := a]) == ValsOf(cells, memory)[i := a]
    ensures KeptBut(cells, memory, memory[cells[i] := a])
  {}

  // ---------- Forward ----------

  /** Entry i has the multiples of the entries before h[i] added, all of which are final. */
  ghost predicate Forward(up: seq<Vec>, b: Vec, v: Vec, h: seq<nat>, n: nat) {
    && Square(up, n) && |b| == |v| == |h| == n
    && (forall i :: 0 <= i < n ==> ForwardAt(up[i], b[i], v, h, i, n))
  }

  ghost predicate ForwardAt(row: Vec, b: Byte, v: Vec, h: seq<nat>, i: nat, n: nat)
    requires i < n == |row| == |v| == |h|
  {
    && h[i] <= i && v[i] == Add(b, Span(row, v, 0, h[i]))
    && (forall j :: 0 <= j < h[i] ==> h[j] == j)
  }

  lemma ForwardNone(up: seq<Vec>, b: Vec, n: nat)
    requires Square(up, n) && |b| == n
    ensures Forward(up, b, b, seq(n, _ => 0), n)
  {
    hide Add, Mul;
    forall i | 0 <= i < n ensures ForwardAt(up[i], b[i], b, seq(n, _ => 0), i, n) { AddZero(b[i]); }
  }

  /** Adding the multiples of final entries up to t moves entry i forward. */
  lemma ForwardStep(up: seq<Vec>, b: Vec, v: Vec, h: seq<nat>, n: nat, i: nat, t: nat)
    requires Forward(up, b, v, h, n) && i < n && h[i] <= t <= i
    requires forall j :: h[i] <= j < t ==> h[j] == j
    ensures Forward(up, b, v[i := Add(v[i], Span(up[i], v, h[i], t))], h[i := t], n)
  {
    hide Add, Mul, Span;
    var v', h' := v[i := Add(v[i], Span(up[i], v, h[i], t))], h[i := t];
    assert ForwardAt(up[i], b[i], v, h, i, n);
    if h[i] == t {
      SpanEmpty(up[i], v, t);
      AddZero(v[i]);
      assert v' == v && h' == h;
      return;
    }
    forall x | 0 <= x < n ensures ForwardAt(up[x], b[x], v', h', x, n) {
      assert ForwardAt(up[x], b[x], v, h, x, n);
      if x == i {
        SpanSplit(up[i], v, 0, h[i], t);
        SpanAgree(up[i], up[i], v, v', 0, t);
        AddAssoc(b[i], Span(up[i], v, 0, h[i]), Span(up[i], v, h[i], t));
      } else {
        assert h[x] <= i;
        SpanAgree(up[x], up[x], v, v', 0, h[x]);
      }
    }
  }

  lemma SpanEmpty(u: Vec, v: Vec, t: nat)
    requires t <= |u| && t <= |v|
    ensures Span(u, v, t, t) == ZERO
  {}

  lemma ForwardAll(up: seq<Vec>, b: Vec, v: Vec, h: seq<nat>, n: nat)
    requires Forward(up, b, v, h, n) && forall i :: 0 <= i < n ==> h[i] == i
    ensures ForwardDone(up, b, v, n)
  {
    hide Add, Mul, Span, Dot;
    forall i | 0 <= i < n ensures v[i] == Add(b[i], Dot(up[i], v, i)) {
      assert ForwardAt(up[i], b[i], v, h, i, n);
      SpanDot(up[i], v, i);
    }
  }

  // ---------- Backward ----------

  /** Entry i has the multiples of the entries from l[i] on added, all of which are final; a final
      entry has been divided by its diagonal. */
  ghost predicate Backward(up: seq<Vec>, y: Vec, v: Vec, l: seq<nat>, done: seq<bool>, n: nat) {
    && Square(up, n) && |y| == |v| == |l| == |done| == n
    && (forall i :: 0 <= i < n ==> BackwardAt(up[i], y[i], v, l, done, i, n))
  }

  ghost predicate BackwardAt(row: Vec, y: Byte, v: Vec, l: seq<nat>, done: seq<bool>, i: nat, n: nat)
    requires i < n == |row| == |v| == |l| == |done|
  {
    && i < l[i] <= n && (forall j :: l[i] <= j < n ==> done[j])
    && if done[i] then l[i] == i + 1 && Add(Mul(row[i], v[i]), Span(row, v, l[i], n)) == y
       else v[i] == Add(y, Span(row, v, l[i], n))
  }

  lemma BackwardNone(up: seq<Vec>, y: Vec, n: nat)
    requires Square(up, n) && |y| == n
    ensures Backward(up, y, y, seq(n, _ => n), seq(n, _ => false), n)
  {
    hide Add, Mul;
    forall i | 0 <= i < n ensures BackwardAt(up[i], y[i], y, seq(n, _ => n), seq(n, _ => false), i, n) {
      SpanEmpty(up[i], y, n);
      AddZero(y[i]);
    }
  }

  /** Adding the multiples of final entries from s on moves entry i down. */
  lemma BackwardStep(up: seq<Vec>, y: Vec, v: Vec, l: seq<nat>, done: seq<bool>, n: nat, i: nat, s: nat)
    requires Backward(up, y, v, l, done, n) && i < n && i < s <= l[i] && !done[i]
    requires forall j :: s <= j < l[i] && j < n ==> done[j]
    ensures l[i] <= n && Backward(up, y, v[i := Add(v[i], Span(up[i], v, s, l[i]))], l[i := s], done, n)
  {
    hide Add, Mul, Span;
    assert BackwardAt(up[i], y[i], v, l, done, i, n);
    var v', l' := v[i := Add(v[i], Span(up[i], v, s, l[i]))], l[i := s];
    forall x | 0 <= x < n ensures BackwardAt(up[x], y[x], v', l', done, x, n) {
      assert BackwardAt(up[x], y[x], v, l, done, x, n);
      if x == i {
        SpanSplit(up[i], v, s, l[i], n);
        SpanAgree(up[i], up[i], v, v', s, n);
        AddAssoc(y[i], Span(up[i], v, l[i], n), Span(up[i], v, s, l[i]));
        AddComm(Span(up[i], v, l[i], n), Span(up[i], v, s, l[i]));
      } else {
        SpanAgree(up[x], up[x], v, v', l[x], n);
      }
    }
  }

  /** Dividing by the diagonal makes an entry final. */
  lemma BackwardDivide(up: seq<Vec>, y: Vec, v: Vec, l: seq<nat>, done: seq<bool>, n: nat, i: nat)
    requires Backward(up, y, v, l, done, n) && i < n && l[i] == i + 1 && !done[i] && up[i][i] != ZERO
    ensures Backward(up, y, v[i := Div(v[i], up[i][i])], l, done[i := true], n)
  {
    hide Add, Mul, Span, Div;
    var v', done' := v[i := Div(v[i], up[i][i])], done[i := true];
    forall x | 0 <= x < n ensures BackwardAt(up[x], y[x], v', l, done', x, n) {
      assert BackwardAt(up[x], y[x], v, l, done, x, n);
      if x == i {
        DivMul(v[i], up[i][i]);
        MulComm(v'[i], up[i][i]);
        SpanAgree(up[i], up[i], v, v', l[i], n);
        var s := Span(up[i], v, l[i], n);
        AddComm(y[i], s);
        AddCancel(s, y[i]);
      } else {
        SpanAgree(up[x], up[x], v, v', l[x], n);
      }
    }
  }

  lemma BackwardAll(up: seq<Vec>, y: Vec, v: Vec, l: seq<nat>, done: seq<bool>, n: nat)
    requires Backward(up, y, v, l, done, n) && forall i :: 0 <= i < n ==> done[i]
    ensures BackDone(up, y, v, n)
  {
    hide Add, Mul, Span, Dot;
    forall i | 0 <= i < n ensures Dot(Tail(up[i], i), v, n) == y[i] {
      assert BackwardAt(up[i], y[i], v, l, done, i, n);
      SpanTail(up[i], v, i, n);
      SpanFirst(up[i], v, i, n);
    }
  }
}

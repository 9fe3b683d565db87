/** The column generator: a Weyl walk modulo the next prime p at or above b, skipping
    values from b on, never repeats a column within its first b steps. */
module Columns {
  import opened Finite

  // ---------- Arithmetic modulo p ----------

  lemma ModUnique(n: int, a: int, q: int, r: int)
    requires 0 <= r < a && n == a * q + r
    ensures n % a == r
  {
    var d := n / a - q;
    assert a * d == r - n % a;
    if d != 0 { MulAway(a, d); }
  }

  lemma {:induction false} MulAway(a: int, d: int)
    requires a > 0 && d != 0
    ensures if d > 0 then a * d >= a else a * d <= -a
    decreases if d > 0 then d else -d
  {
    if d > 1 {
      MulAway(a, d - 1);
    } else if d < -1 {
      MulAway(a, d + 1);
    }
  }

  function AddMod(y: nat, a: nat, p: nat): nat
    requires y < p && a < p
  {
    if y + a < p then y + a else y + a - p
  }

  lemma AddModIs(y: nat, a: nat, p: nat)
    requires y < p && a < p
    ensures (y + a) % p == AddMod(y, a, p)
  {
    ModUnique(y + a, p, if y + a < p then 0 else 1, AddMod(y, a, p));
  }

  // ---------- One step ----------

  ghost predicate Walkable(b: nat, p: nat, a: nat) {
    1 <= a < b <= p < 0x1_0000
  }

  /** Add a modulo p until the value is below b. */
  function Settle(y: nat, b: nat, p: nat, a: nat): (r: nat)
    requires Walkable(b, p, a) && y < p
    ensures r < b
    decreases if y < b then 0 else p - y
  {
    if y < b then y else Settle(AddMod(y, a, p), b, p, a)
  }

  function Next(x: nat, b: nat, p: nat, a: nat): (r: nat)
    requires Walkable(b, p, a) && x < b
    ensures r < b
  {
    Settle(AddMod(x, a, p), b, p, a)
  }

  /** The loop the closed form stands for. */
  method IterateNextColumnRef(x: nat, b: nat, p: nat, a: nat) returns (y: nat)
    requires Walkable(b, p, a) && x < b
    ensures y == Next(x, b, p, a)
  {
    AddModIs(x, a, p);
    y := (x + a) % p;
    while y >= b
      invariant y < p && Settle(y, b, p, a) == Next(x, b, p, a)
      decreases if y < b then 0 else p - y
    {
      AddModIs(y, a, p);
      y := (y + a) % p;
    }
  }

  /** The residue of -d modulo a, for d up to 65535, taken from a * 65536 - d. */
  function Residue(d: nat, a: nat): int
    requires a > 0
  {
    (a * 0x1_0000 - d) % a
  }

  lemma ResidueSmall(d: nat, a: nat)
    requires 1 <= d <= a
    ensures Residue(d, a) == a - d
  {
    if d == a {
      ModUnique(a * 0x1_0000 - d, a, 0xFFFF, 0);
    } else {
      ModUnique(a * 0x1_0000 - d, a, 0xFFFF, a - d);
    }
  }

  lemma ResidueShift(d: nat, a: nat)
    requires 1 <= a < d
    ensures Residue(d, a) == Residue(d - a, a)
  {
    var n := a * 0x1_0000 - d;
    ModUnique(n + a, a, n / a + 1, n % a);
  }

  /** Skipping from [b, p) lands on the residue of -(p - y) modulo a. */
  lemma {:induction false} SettleClosed(y: nat, b: nat, p: nat, a: nat)
    requires Walkable(b, p, a) && b <= y < p
    ensures Settle(y, b, p, a) == Residue(p - y, a)
    decreases p - y
  {
    hide Residue;
    if a >= p - y {
      ResidueSmall(p - y, a);
    } else {
      SettleClosed(y + a, b, p, a);
      ResidueShift(p - y, a);
    }
  }

  /** The loop-less step of the code, on 16-bit columns and a 32-bit intermediate. */
  method IterateNextColumn(x: nat, b: nat, p: nat, a: nat) returns (y: nat)
    requires Walkable(b, p, a) && x < b
    ensures y == Next(x, b, p, a)
  {
    AddModIs(x, a, p);
    y := (x + a) % p;
    if y >= b {
      SettleClosed(y, b, p, a);
      var distanceToP := p - y;
      if a >= distanceToP {
        y := a - distanceToP;
      } else {
        y := ((a * 0x1_0000) % 0x1_0000_0000 - distanceToP) % a;
      }
    }
  }

  // ---------- The walk ----------

  predicate Divides(d: nat, p: nat)
    requires d > 0
  {
    p % d == 0
  }

  ghost predicate Prime(p: nat) {
    p > 1 && forall d: nat :: 1 < d < p ==> !Divides(d, p)
  }

  /** The first count columns of the walk from x. */
  function Walk(x: nat, b: nat, p: nat, a: nat, count: nat): (s: seq<nat>)
    requires Walkable(b, p, a) && x < b
    ensures |s| == count
    ensures forall i :: 0 <= i < count ==> s[i] < b
    decreases count
  {
    if count == 0 then [] else [x] + Walk(Next(x, b, p, a), b, p, a, count - 1)
  }

  /** Position j of the unfiltered walk: x + j * a modulo p. */
  function Point(x: nat, p: nat, a: nat, j: nat): (r: nat)
    requires x < p && a < p
    ensures r < p
  {
    if j == 0 then x else AddMod(Point(x, p, a, j - 1), a, p)
  }

  lemma {:induction false} PointShift(x: nat, p: nat, a: nat, i: nat, j: nat)
    requires x < p && a < p
    ensures Point(Point(x, p, a, i), p, a, j) == Point(x, p, a, i + j)
  {
    if j > 0 { PointShift(x, p, a, i, j - 1); }
  }

  lemma Successor(q: int, p: int)
    ensures (q + 1) * p == q * p + p
  {}

  /** p divides Point(x, j) - x - j * a. */
  lemma {:induction false} PointMod(x: nat, p: nat, a: nat, j: nat) returns (q: nat)
    requires x < p && a < p
    ensures x + j * a == q * p + Point(x, p, a, j)
  {
    if j == 0 {
      q := 0;
    } else {
      var q0 := PointMod(x, p, a, j - 1);
      Successor(j - 1, a);
      Successor(q0, p);
      q := if Point(x, p, a, j - 1) + a >= p then q0 + 1 else q0;
    }
  }

  /** A period of the walk: t steps of a come to a multiple of p. */
  ghost predicate Period(t: nat, a: nat, p: nat) {
    t > 0 && exists q: nat :: t * a == q * p
  }

  /** If m is a period, so is what m leaves of p. */
  lemma RemainderPeriod(m: nat, q: nat, a: nat, p: nat)
    requires m > 0 && a > 0 && p > 0 && m * a == q * p && p % m > 0
    ensures Period(p % m, a, p)
  {
    var k, r := p / m, p % m;
    Distribute(p, k, m, a);
    Associate(k, q, p);
    Distribute2(a, k * q, p);
    var d := a - k * q;
    assert r * a == d * p;
    MulSign2(r, a);
    if d <= 0 { MulSign(d, p); }
  }

  /** The least period divides p, so for a prime p it is p itself. */
  lemma {:induction false} NoShortPeriod(t: nat, a: nat, p: nat)
    requires Prime(p) && 0 < a < p && Period(t, a, p)
    ensures t >= p
  {
    if t < p {
      var m := LeastPeriod(t, a, p);
      var q: nat :| m * a == q * p;
      assert m > 1 ==> !Divides(m, p);
      if p % m > 0 {
        RemainderPeriod(m, q, a, p);
      } else if q >= 1 {
        MulAway(p, q);
      } else {
        MulSign2(m, a);
      }
    }
  }

  lemma Distribute(p: int, k: int, m: int, a: int)
    ensures (p - k * m) * a == p * a - k * (m * a)
  {}

  lemma Associate(k: int, q: int, p: int)
    ensures k * (q * p) == (k * q) * p
  {}

  lemma Distribute2(a: int, c: int, p: int)
    ensures p * a - c * p == (a - c) * p
  {}

  lemma MulSign(d: int, p: int)
    requires d <= 0 && p > 0
    ensures d * p <= 0
  {
    if d < 0 { MulAway(p, d); }
  }

  lemma MulSign2(r: int, a: int)
    requires r > 0 && a > 0
    ensures r * a > 0
  {
    MulAway(r, a);
  }

  lemma {:induction false} LeastPeriod(t: nat, a: nat, p: nat) returns (m: nat)
    requires Period(t, a, p)
    ensures 0 < m <= t && Period(m, a, p)
    ensures forall s :: 0 < s < m ==> !Period(s, a, p)
    decreases t
  {
    if s :| 0 < s < t && Period(s, a, p) {
      m := LeastPeriod(s, a, p);
    } else {
      m := t;
    }
  }

  lemma PointInjective(x: nat, p: nat, a: nat, i: nat, j: nat)
    requires Prime(p) && x < p && 0 < a < p && i < j && Point(x, p, a, i) == Point(x, p, a, j)
    ensures j - i >= p
  {
    var q := PointMod(x, p, a, i);
    var q' := PointMod(x, p, a, j);
    Difference(i, j, a);
    Difference(q, q', p);
    assert (j - i) * a == (q' - q) * p;
    MulSign2(j - i, a);
    if q' - q <= 0 { MulSign(q' - q, p); }
    assert Period(j - i, a, p);
    NoShortPeriod(j - i, a, p);
  }

  lemma Difference(i: int, j: int, a: int)
    ensures (j - i) * a == j * a - i * a
  {}

  /** The unfiltered walk visits every residue within its first p points. */
  lemma PointOnto(x: nat, p: nat, a: nat, v: nat)
    requires Prime(p) && x < p && 0 < a < p && v < p
    ensures exists j :: 0 <= j < p && Point(x, p, a, j) == v
  {
    var s := seq(p, j requires 0 <= j < p => Point(x, p, a, j));
    forall i, j | 0 <= i < j < |s| ensures s[i] != s[j] {
      if s[i] == s[j] { PointInjective(x, p, a, i, j); }
    }
    ElementsSize(s);
    RangeFull(p, Elements(s));
    assert v in s;
    var j :| 0 <= j < |s| && s[j] == v;
  }

  /** Settling is walking on: it stops at the first point below b. */
  lemma {:induction false} SettleIsPoint(y: nat, b: nat, p: nat, a: nat) returns (k: nat)
    requires Walkable(b, p, a) && y < p
    ensures Settle(y, b, p, a) == Point(y, p, a, k)
    ensures forall j :: 0 <= j < k ==> Point(y, p, a, j) >= b
    decreases if y < b then 0 else p - y
  {
    k := 0;
    if y >= b {
      var z := AddMod(y, a, p);
      var k' := SettleIsPoint(z, b, p, a);
      k := k' + 1;
      assert Point(y, p, a, 1) == z;
      PointShift(y, p, a, 1, k');
      forall j | 0 <= j < k ensures Point(y, p, a, j) >= b {
        if j > 0 { PointShift(y, p, a, 1, j - 1); }
      }
    }
  }

  /** Column m of the walk, and how far the unfiltered walk has come by then. */
  function Column(x: nat, b: nat, p: nat, a: nat, m: nat): (r: nat)
    requires Walkable(b, p, a) && x < b
    ensures r < b
    decreases m
  {
    if m == 0 then x else Column(Next(x, b, p, a), b, p, a, m - 1)
  }

  /** Every point below b among the first k is in w. */
  ghost predicate Covered(x: nat, b: nat, p: nat, a: nat, k: nat, w: seq<nat>)
    requires Walkable(b, p, a) && x < b
  {
    forall j :: 0 <= j < k && Point(x, p, a, j) < b ==> Point(x, p, a, j) in w
  }

  /** One step taken k1 points on: x itself, then points from b on, then what z covers. */
  lemma CoverStep(x: nat, z: nat, b: nat, p: nat, a: nat, k1: nat, k2: nat, w: seq<nat>)
    requires Walkable(b, p, a) && x < b && z < b && k1 > 0
    requires Point(x, p, a, k1) == z
    requires forall j :: 0 < j < k1 ==> Point(x, p, a, j) >= b
    requires Covered(z, b, p, a, k2, w)
    ensures Covered(x, b, p, a, k1 + k2, [x] + w)
  {
    forall j | 0 <= j < k1 + k2 && Point(x, p, a, j) < b ensures Point(x, p, a, j) in [x] + w {
      if j >= k1 {
        PointShift(x, p, a, k1, j - k1);
        assert Point(z, p, a, j - k1) in w;
      }
    }
  }

  lemma NextIsPoint(x: nat, b: nat, p: nat, a: nat) returns (k: nat)
    requires Walkable(b, p, a) && x < b
    ensures k > 0 && Point(x, p, a, k) == Next(x, b, p, a)
    ensures forall j :: 0 < j < k ==> Point(x, p, a, j) >= b
  {
    var y := AddMod(x, a, p);
    var k' := SettleIsPoint(y, b, p, a);
    assert Point(x, p, a, 1) == y;
    k := 1 + k';
    PointShift(x, p, a, 1, k');
    forall j | 0 < j < k ensures Point(x, p, a, j) >= b { PointShift(x, p, a, 1, j - 1); }
  }

  lemma {:induction false} ColumnIsPoint(x: nat, b: nat, p: nat, a: nat, m: nat) returns (k: nat)
    requires Walkable(b, p, a) && x < b
    ensures Column(x, b, p, a, m) == Point(x, p, a, k)
    ensures m > 0 ==> k > 0
    ensures Covered(x, b, p, a, k, Walk(x, b, p, a, m))
    decreases m
  {
    k := 0;
    if m > 0 {
      var z := Next(x, b, p, a);
      var k1 := NextIsPoint(x, b, p, a);
      var k2 := ColumnIsPoint(z, b, p, a, m - 1);
      PointShift(x, p, a, k1, k2);
      CoverStep(x, z, b, p, a, k1, k2, Walk(z, b, p, a, m - 1));
      k := k1 + k2;
    }
  }

  /** The walk does not come back to its start before all b columns have been visited. */
  lemma NoReturn(x: nat, b: nat, p: nat, a: nat, m: nat)
    requires Prime(p) && Walkable(b, p, a) && x < b && 0 < m && Column(x, b, p, a, m) == x
    ensures m >= b
  {
    var k := ColumnIsPoint(x, b, p, a, m);
    PointInjective(x, p, a, 0, k);
    var w := Walk(x, b, p, a, m);
    forall v | 0 <= v < b ensures v in w {
      PointOnto(x, p, a, v);
      var j :| 0 <= j < p && Point(x, p, a, j) == v;
    }
    CoverSize(w, b);
  }

  lemma {:induction false} WalkColumn(x: nat, b: nat, p: nat, a: nat, count: nat, i: nat, j: nat)
    requires Walkable(b, p, a) && x < b && i <= j < count
    ensures Walk(x, b, p, a, count)[j] == Column(Walk(x, b, p, a, count)[i], b, p, a, j - i)
    decreases j
  {
    if i > 0 {
      WalkColumn(Next(x, b, p, a), b, p, a, count - 1, i - 1, j - 1);
    } else if j > 0 {
      WalkColumn(Next(x, b, p, a), b, p, a, count - 1, 0, j - 1);
    }
  }

  /** No column is repeated within the first b. */
  lemma WalkDistinct(x: nat, b: nat, p: nat, a: nat, count: nat)
    requires Prime(p) && Walkable(b, p, a) && x < b && count <= b
    ensures forall i, j :: 0 <= i < j < count ==> Walk(x, b, p, a, count)[i] != Walk(x, b, p, a, count)[j]
  {
    var w := Walk(x, b, p, a, count);
    forall i, j | 0 <= i < j < count ensures w[i] != w[j] {
      WalkColumn(x, b, p, a, count, i, j);
      if w[i] == w[j] { NoReturn(w[i], b, p, a, j - i); }
    }
  }
}

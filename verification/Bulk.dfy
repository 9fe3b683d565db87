/** The tables of the field, filled once, and the operations on whole buffers: wide blocks first, then
    tails of eight, four and up to three bytes. Each byte gets what the operation on single bytes gives. */
module Bulk {
  import opened Finite
  import opened GF256

  // ---------- Bytes as indices ----------

  function ByteOf(x: nat): Byte
    requires x < 256
  {
    Byte(x as bv8)
  }

  lemma ByteNum(a: Byte)
    ensures Num(a) < 256 && ByteOf(Num(a)) == a
  {
    NumInjective(a, a);
    assert a.bits as nat as bv8 == a.bits;
  }

  lemma NumByte(x: nat)
    requires x < 256
    ensures Num(ByteOf(x)) == x && (x > 0 ==> ByteOf(x) != ZERO)
  {
    var a := NumOnto(x);
    assert a.bits as nat as bv8 == a.bits;
    assert ByteOf(x) == a;
    if a == ZERO { assert Num(ZERO) == 0; }
  }

  /** Every number below 256 is that of some byte: there are that many. */
  lemma NumOnto(x: nat) returns (a: Byte)
    requires x < 256
    ensures Num(a) == x
  {
    hide Num, Exp;
    var s := GF256.Powers();
    PowersDiffer();
    ElementsSize(s);
    RangeFull(256, Elements(s));
    assert x in s;
    var i :| 0 <= i < 256 && s[i] == x;
    a := if i == 0 then ZERO else Exp(i);
    assert Num(ZERO) == 0 by { ZeroNum(); }
  }

  lemma ZeroNum()
    ensures Num(ZERO) == 0
  {}

  // ---------- Tables ----------

  /** Entries below n are the powers of x. */
  ghost predicate Powers(exp: seq<Byte>, n: nat) {
    |exp| == 1020 && n <= |exp| && forall i :: 0 <= i < n ==> exp[i] == Exp(i)
  }

  /** The logarithm of each non-zero byte, from 1 to 255. */
  ghost predicate Logs(log: seq<nat>) {
    |log| == 256 && log[0] == 512 && forall x :: 0 < x < 256 ==> log[x] == Log(ByteOf(x))
  }

  /** Doubling as the table construction does it: 0x14D is subtracted when bit 8 appears. */
  function Next(a: Byte): Byte {
    var next: bv16 := (a.bits as bv16) * 2;
    Byte(((if next >= 256 then next ^ 0x14D else next) & 0xFF) as bv8)
  }

  lemma NextDoubles(a: Byte)
    ensures Next(a) == Double(a)
  {}

  lemma {:induction false} ExpPeriod(i: nat)
    ensures Exp(i + 255) == Exp(i)
  {
    hide Double, Mul;
    ExpAdd(i, 255);
    ExpOrder();
    MulOne(Exp(i));
  }

  /** The powers up to 254 with their logarithms, one doubling each; then x^255 is one again. */
  method FirstPowers() returns (exp: seq<Byte>, log: seq<nat>)
    ensures Powers(exp, 256) && Logs(log)
  {
    hide Double, Next, Log, Logs, Num;
    exp, log := seq(1020, _ => ZERO), seq(256, _ => 0);
    log := log[0 := 512];
    exp := exp[0 := ONE];
    var jj := 1;
    while jj < 255
      invariant 1 <= jj <= 255 && LogsTo(log, jj) && Powers(exp, jj)
    {
      NextDoubles(exp[jj - 1]);
      LogPlace(jj);
      var next := Next(exp[jj - 1]);
      exp := exp[jj := next];
      log := log[Num(next) := jj];
      jj := jj + 1;
    }
    ExpOrder();
    exp := exp[255 := exp[0]];
    LogPlace(255);
    log := log[Num(exp[255]) := 255];
    AllLogs(log);
  }

  ghost predicate LogsTo(log: seq<nat>, j: nat) {
    |log| == 256 && log[0] == 512 && forall i :: 1 <= i < j ==> Num(Exp(i)) < 256 && log[Num(Exp(i))] == i
  }

  /** Fill the tables of powers and logarithms. */
  method ExpLogInit() returns (exp: seq<Byte>, log: seq<nat>)
    ensures Powers(exp, 511) && (forall i :: 511 <= i < 1020 ==> exp[i] == ZERO) && Logs(log)
  {
    hide Double, Exp, Logs;
    exp, log := FirstPowers();
    var jj := 256;
    while jj < 510
      invariant 256 <= jj <= 510 && Powers(exp, jj)
    {
      ExpPeriod(jj - 255);
      assert jj % 255 == jj - 255;
      exp := exp[jj := exp[jj % 255]];
      jj := jj + 1;
    }
    ExpPeriod(255);
    ExpOrder();
    exp := exp[510 := ONE];
    jj := 511;
    while jj < 1020
      invariant 511 <= jj <= 1020 && Powers(exp, 511) && forall i :: 511 <= i < jj ==> exp[i] == ZERO
    {
      exp := exp[jj := ZERO];
      jj := jj + 1;
    }
  }

  /** A new power has a place of its own, which is not that of zero. */
  lemma LogPlace(j: nat)
    requires 1 <= j <= 255
    ensures 0 < Num(Exp(j)) < 256 && forall i :: 1 <= i < j ==> Num(Exp(i)) != Num(Exp(j))
  {
    hide Double;
    ExpNonZero(j);
    NumInjective(Exp(j), Exp(j));
    forall i | 1 <= i < j ensures Num(Exp(i)) != Num(Exp(j)) {
      NumInjective(Exp(i), Exp(j));
      ExpInjective(i, j);
    }
  }

  lemma AllLogs(log: seq<nat>)
    requires LogsTo(log, 256)
    ensures Logs(log)
  {
    hide Log, Double, Exp;
    forall x | 0 < x < 256 ensures log[x] == Log(ByteOf(x)) {
      NumByte(x);
      ExpLog(ByteOf(x));
    }
  }

  /** Row y of the multiplication table holds the products with y. */
  ghost predicate MulRow(row: seq<Byte>, y: nat, n: nat) {
    y < 256 && |row| == n <= 256 && forall x :: 0 <= x < n ==> row[x] == Mul(ByteOf(x), ByteOf(y))
  }

  ghost predicate DivRow(row: seq<Byte>, y: nat, n: nat) {
    y < 256 && |row| == n <= 256 && forall x :: 0 <= x < n ==> row[x] == Div(ByteOf(x), ByteOf(y))
  }

  ghost predicate MulTable(m: seq<seq<Byte>>, n: nat) {
    |m| == n <= 256 && forall y :: 0 <= y < n ==> MulRow(m[y], y, 256)
  }

  ghost predicate DivTable(d: seq<seq<Byte>>, n: nat) {
    |d| == n <= 256 && forall y :: 0 <= y < n ==> DivRow(d[y], y, 256)
  }

  lemma ZeroFirst()
    ensures ByteOf(0) == ZERO
  {}

  lemma LogProduct(x: nat, y: nat)
    requires 0 < x < 256 && 0 < y < 256
    ensures var l, k := Log(ByteOf(x)), Log(ByteOf(y));
      && 0 < l <= 255 && 0 < k <= 255
      && Exp(l + k) == Mul(ByteOf(x), ByteOf(y)) && Exp(l + (255 - k)) == Div(ByteOf(x), ByteOf(y))
  {
    hide Log, Mul, Exp;
    NumByte(x);
    NumByte(y);
    ExpLog(ByteOf(x));
    ExpLog(ByteOf(y));
    ExpAdd(Log(ByteOf(x)), Log(ByteOf(y)));
  }

  /** The rows of one multiplier. */
  method MulDivRow(exp: seq<Byte>, log: seq<nat>, y: nat) returns (m: seq<Byte>, d: seq<Byte>)
    requires Powers(exp, 511) && Logs(log) && 0 < y < 256
    ensures MulRow(m, y, 256) && DivRow(d, y, 256)
  {
    hide Log, Mul, Div, Exp, ByteOf;
    ZeroFirst();
    MulZero(ByteOf(y));
    assert Div(ZERO, ByteOf(y)) == ZERO by { DivZero(ByteOf(y)); }
    m, d := [ZERO], [ZERO];
    assert 0 < log[y] <= 255 by { LogProduct(y, y); }
    var logY := log[y];
    var logYn := 255 - logY;
    var x := 1;
    while x < 256
      invariant 1 <= x <= 256 && MulRow(m, y, x) && DivRow(d, y, x)
    {
      LogProduct(x, y);
      var logX := log[x];
      m := m + [exp[logX + logY]];
      d := d + [exp[logX + logYn]];
      x := x + 1;
    }
  }

  lemma DivZero(y: Byte)
    ensures Div(ZERO, y) == ZERO && Div(y, ZERO) == ZERO
  {}

  /** The multiplication and division tables from the logarithms. */
  method MulDivInit(exp: seq<Byte>, log: seq<nat>) returns (m: seq<seq<Byte>>, d: seq<seq<Byte>>)
    requires Powers(exp, 511) && Logs(log)
    ensures MulTable(m, 256) && DivTable(d, 256)
  {
    hide Log, Mul, Div, Exp, ByteOf, Powers, Logs;
    var zeros := seq(256, _ => ZERO);
    assert MulRow(zeros, 0, 256) && DivRow(zeros, 0, 256) by { ZeroRows(zeros); }
    m, d := [zeros], [zeros];
    var y := 1;
    while y < 256
      invariant 1 <= y <= 256 && MulTable(m, y) && DivTable(d, y)
    {
      var a, b := MulDivRow(exp, log, y);
      m, d := m + [a], d + [b];
      y := y + 1;
    }
  }

  lemma ZeroRows(zeros: seq<Byte>)
    requires |zeros| == 256 && forall x :: 0 <= x < 256 ==> zeros[x] == ZERO
    ensures MulRow(zeros, 0, 256) && DivRow(zeros, 0, 256)
  {
    hide Mul, Div;
    ZeroFirst();
    forall x | 0 <= x < 256 ensures Mul(ByteOf(x), ZERO) == ZERO == Div(ByteOf(x), ZERO) {
      MulZero(ByteOf(x));
      DivZero(ByteOf(x));
    }
  }

  /** The global tables: products, inverses, and for each multiplier the products of the low and of the
      high halves of a byte. */
  class Context {
    var mul: seq<seq<Byte>>
    var div: seq<seq<Byte>>
    var inv: seq<Byte>
    var sqr: seq<Byte>
    var lo: seq<seq<Byte>>
    var hi: seq<seq<Byte>>

    ghost predicate Right()
      reads this
    {
      && MulTable(mul, 256) && DivTable(div, 256)
      && |inv| == 256 && (forall x :: 0 <= x < 256 ==> inv[x] == Div(ONE, ByteOf(x)))
      && |sqr| == 256 && (forall x :: 0 <= x < 256 ==> sqr[x] == Mul(ByteOf(x), ByteOf(x)))
      && |lo| == |hi| == 256 && (forall y :: 0 <= y < 256 ==> Halves(lo[y], hi[y], y))
    }

    /** gf256_init: everything from the polynomial. */
    constructor ()
      ensures Right()
    {
      var exp, log := ExpLogInit();
      var m, d := MulDivInit(exp, log);
      var i, q := InvSqrInit(m, d);
      var l, h := MulMemInit(m);
      mul, div, inv, sqr, lo, hi := m, d, i, q, l, h;
    }
  }

  /** The products of 0 .. 15 and of their multiples of 16 with y. */
  ghost predicate Halves(lo: seq<Byte>, hi: seq<Byte>, y: nat) {
    && y < 256 && |lo| == |hi| == 16
    && (forall x :: 0 <= x < 16 ==> lo[x] == Mul(ByteOf(x), ByteOf(y)) && hi[x] == Mul(ByteOf(x * 16), ByteOf(y)))
  }

  method InvSqrInit(m: seq<seq<Byte>>, d: seq<seq<Byte>>) returns (inv: seq<Byte>, sqr: seq<Byte>)
    requires MulTable(m, 256) && DivTable(d, 256)
    ensures |inv| == 256 && (forall x :: 0 <= x < 256 ==> inv[x] == Div(ONE, ByteOf(x)))
    ensures |sqr| == 256 && (forall x :: 0 <= x < 256 ==> sqr[x] == Mul(ByteOf(x), ByteOf(x)))
  {
    hide Mul, Div, ByteOf;
    inv, sqr := [], [];
    OneFirst();
    var x := 0;
    while x < 256
      invariant 0 <= x <= 256 && |inv| == |sqr| == x
      invariant forall k :: 0 <= k < x ==> inv[k] == Div(ONE, ByteOf(k)) && sqr[k] == Mul(ByteOf(k), ByteOf(k))
    {
      assert MulRow(m[x], x, 256) && DivRow(d[x], x, 256);
      inv, sqr := inv + [d[x][1]], sqr + [m[x][x]];
      x := x + 1;
    }
  }

  lemma OneFirst()
    ensures ByteOf(1) == ONE
  {}

  method MulMemInit(m: seq<seq<Byte>>) returns (lo: seq<seq<Byte>>, hi: seq<seq<Byte>>)
    requires MulTable(m, 256)
    ensures |lo| == |hi| == 256 && forall y :: 0 <= y < 256 ==> Halves(lo[y], hi[y], y)
  {
    hide Mul, Div, ByteOf;
    lo, hi := [], [];
    var y := 0;
    while y < 256
      invariant 0 <= y <= 256 && |lo| == |hi| == y && forall k :: 0 <= k < y ==> Halves(lo[k], hi[k], k)
    {
      assert MulRow(m[y], y, 256);
      var l, h := [], [];
      var x := 0;
      while x < 16
        invariant 0 <= x <= 16 && |l| == |h| == x
        invariant forall k :: 0 <= k < x ==> l[k] == Mul(ByteOf(k), ByteOf(y)) && h[k] == Mul(ByteOf(k * 16), ByteOf(y))
      {
        l, h := l + [m[y][x]], h + [m[y][x * 16]];
        x := x + 1;
      }
      lo, hi := lo + [l], hi + [h];
      y := y + 1;
    }
  }

  // ---------- Products from half bytes ----------

  function LowHalf(b: Byte): Byte { Byte(b.bits & 0x0F) }

  function HighHalf(b: Byte): Byte { Byte((b.bits >> 4) & 0x0F) }

  predicate IsHalf(h: Byte) { h.bits < 16 }

  lemma SplitHalves(b: Byte)
    ensures Add(LowHalf(b), Byte(HighHalf(b).bits << 4)) == b
    ensures IsHalf(LowHalf(b)) && IsHalf(HighHalf(b))
  {}

  lemma HalfNum(h: Byte)
    requires IsHalf(h)
    ensures Num(h) < 16 && ByteOf(Num(h)) == h && ByteOf(Num(h) * 16) == Byte(h.bits << 4)
  {
    var v := h.bits;
    assert v == 0 || v == 1 || v == 2 || v == 3 || v == 4 || v == 5 || v == 6 || v == 7
      || v == 8 || v == 9 || v == 10 || v == 11 || v == 12 || v == 13 || v == 14 || v == 15;
  }

  /** The product of b looked up in the two tables of a multiplier. */
  function Looked(lo: seq<Byte>, hi: seq<Byte>, b: Byte): Byte
    requires |lo| == |hi| == 16
  {
    SplitHalves(b);
    HalfNum(LowHalf(b));
    HalfNum(HighHalf(b));
    Add(lo[Num(LowHalf(b))], hi[Num(HighHalf(b))])
  }

  /** The two partial products sum to the product. */
  lemma LookedIsMul(lo: seq<Byte>, hi: seq<Byte>, b: Byte, y: nat)
    requires Halves(lo, hi, y)
    ensures Looked(lo, hi, b) == Mul(b, ByteOf(y))
  {
    hide Mul, Add, Num, ByteOf, LowHalf, HighHalf, IsHalf;
    SplitHalves(b);
    HalfNum(LowHalf(b));
    HalfNum(HighHalf(b));
    MulAddLeft(LowHalf(b), Byte(HighHalf(b).bits << 4), ByteOf(y));
  }

  // ---------- Buffers ----------

  /** What the processor offers; Plain has no wide registers. */
  datatype Cpu = Avx2 | Ssse3 | Sse2 | Neon | Plain

  type Lane = (Byte, Byte, Byte) -> Byte

  /** The first at bytes of z have been replaced; those behind, of all three buffers, are as they were.
      z may be one of the others. */
  ghost predicate Done(z: array<Byte>, x: array<Byte>, w: array<Byte>, f: Lane, z0: seq<Byte>, x0: seq<Byte>,
    w0: seq<Byte>, at: nat)
    reads z, x, w
  {
    && z.Length == x.Length == w.Length == |z0| == |x0| == |w0| && at <= z.Length
    && (forall i :: 0 <= i < at ==> z[i] == f(z0[i], x0[i], w0[i]))
    && (forall i :: at <= i < z.Length ==> z[i] == z0[i] && x[i] == x0[i] && w[i] == w0[i])
  }

  ghost predicate Same(op: Lane, f: Lane) {
    forall a, b, c :: op(a, b, c) == f(a, b, c)
  }

  /** One register: every byte of it at once. */
  method Block(z: array<Byte>, x: array<Byte>, w: array<Byte>, op: Lane, at: nat, size: nat,
    ghost f: Lane, ghost z0: seq<Byte>, ghost x0: seq<Byte>, ghost w0: seq<Byte>)
    requires Done(z, x, w, f, z0, x0, w0, at) && at + size <= z.Length && Same(op, f)
    modifies z
    ensures Done(z, x, w, f, z0, x0, w0, at + size)
  {
    forall i | at <= i < at + size {
      z[i] := op(z[i], x[i], w[i]);
    }
  }

  /** As many registers of one size as fit. */
  method Blocks(z: array<Byte>, x: array<Byte>, w: array<Byte>, op: Lane, from: nat, size: nat,
    ghost f: Lane, ghost z0: seq<Byte>, ghost x0: seq<Byte>, ghost w0: seq<Byte>) returns (at: nat)
    requires Done(z, x, w, f, z0, x0, w0, from) && size > 0 && Same(op, f)
    modifies z
    ensures Done(z, x, w, f, z0, x0, w0, at) && from <= at && z.Length - at < size
  {
    hide Same;
    at := from;
    while z.Length - at >= size
      invariant from <= at && Done(z, x, w, f, z0, x0, w0, at)
    {
      Block(z, x, w, op, at, size, f, z0, x0, w0);
      at := at + size;
    }
  }

  /** The last three bytes: a switch that falls through, from the last byte to the first. */
  method Last(z: array<Byte>, x: array<Byte>, w: array<Byte>, op: Lane, at: nat,
    ghost f: Lane, ghost z0: seq<Byte>, ghost x0: seq<Byte>, ghost w0: seq<Byte>)
    requires Done(z, x, w, f, z0, x0, w0, at) && z.Length - at < 4 && Same(op, f)
    modifies z
    ensures Done(z, x, w, f, z0, x0, w0, z.Length)
  {
    hide Same;
    var rest := z.Length - at;
    SameAll(op, f, z0, x0, w0);
    if rest == 3 { z[at + 2] := op(z[at + 2], x[at + 2], w[at + 2]); }
    if rest >= 2 { z[at + 1] := op(z[at + 1], x[at + 1], w[at + 1]); }
    if rest >= 1 { z[at] := op(z[at], x[at], w[at]); }
  }

  lemma SameAll(op: Lane, f: Lane, z0: seq<Byte>, x0: seq<Byte>, w0: seq<Byte>)
    requires Same(op, f) && |z0| == |x0| == |w0|
    ensures forall i :: 0 <= i < |z0| ==> op(z0[i], x0[i], w0[i]) == f(z0[i], x0[i], w0[i])
  {}

  /** Fewer than sixteen bytes: eight, four, and up to three. */
  method Tail(z: array<Byte>, x: array<Byte>, w: array<Byte>, op: Lane, from: nat,
    ghost f: Lane, ghost z0: seq<Byte>, ghost x0: seq<Byte>, ghost w0: seq<Byte>)
    requires Done(z, x, w, f, z0, x0, w0, from) && z.Length - from < 16 && Same(op, f)
    modifies z
    ensures Done(z, x, w, f, z0, x0, w0, z.Length)
  {
    hide Same;
    var at := from;
    var bytes := z.Length - from;
    if bytes / 8 % 2 == 1 {
      Block(z, x, w, op, at, 8, f, z0, x0, w0);
      at := at + 8;
    }
    if bytes / 4 % 2 == 1 {
      Block(z, x, w, op, at, 4, f, z0, x0, w0);
      at := at + 4;
    }
    Last(z, x, w, op, at, f, z0, x0, w0);
  }

  /** x += y */
  method AddMem(x: array<Byte>, y: array<Byte>, cpu: Cpu)
    requires x.Length == y.Length
    modifies x
    ensures forall i :: 0 <= i < x.Length ==> x[i] == Add(old(x[i]), old(y[i]))
  {
    hide Add;
    var op: Lane := (a, b, c) => Add(a, b);
    ghost var x0, y0 := x[..], y[..];
    var at := 0;
    match cpu {
      case Avx2 =>
        at := Blocks(x, y, y, op, at, 128, op, x0, y0, y0);
        at := Blocks(x, y, y, op, at, 32, op, x0, y0, y0);
        at := Blocks(x, y, y, op, at, 16, op, x0, y0, y0);
      case Plain =>
        at := Blocks(x, y, y, op, at, 8, op, x0, y0, y0);
      case _ =>
        at := Blocks(x, y, y, op, at, 64, op, x0, y0, y0);
        at := Blocks(x, y, y, op, at, 16, op, x0, y0, y0);
    }
    Tail(x, y, y, op, at, op, x0, y0, y0);
  }

  /** z += x + y */
  method Add2Mem(z: array<Byte>, x: array<Byte>, y: array<Byte>, cpu: Cpu)
    requires z.Length == x.Length == y.Length
    modifies z
    ensures forall i :: 0 <= i < z.Length ==> z[i] == Add(old(z[i]), Add(old(x[i]), old(y[i])))
  {
    hide Add;
    var op: Lane := (a, b, c) => Add(a, Add(b, c));
    ghost var z0, x0, y0 := z[..], x[..], y[..];
    var at := 0;
    match cpu {
      case Avx2 =>
        at := Blocks(z, x, y, op, at, 32, op, z0, x0, y0);
        at := Blocks(z, x, y, op, at, 16, op, z0, x0, y0);
      case Plain =>
        at := Blocks(z, x, y, op, at, 8, op, z0, x0, y0);
      case _ =>
        at := Blocks(z, x, y, op, at, 16, op, z0, x0, y0);
    }
    Tail(z, x, y, op, at, op, z0, x0, y0);
  }

  /** z = x + y */
  method AddSetMem(z: array<Byte>, x: array<Byte>, y: array<Byte>, cpu: Cpu)
    requires z.Length == x.Length == y.Length
    modifies z
    ensures forall i :: 0 <= i < z.Length ==> z[i] == Add(old(x[i]), old(y[i]))
  {
    hide Add;
    var op: Lane := (a, b, c) => Add(b, c);
    ghost var z0, x0, y0 := z[..], x[..], y[..];
    var at := 0;
    match cpu {
      case Avx2 =>
        at := Blocks(z, x, y, op, at, 32, op, z0, x0, y0);
        at := Blocks(z, x, y, op, at, 16, op, z0, x0, y0);
      case Plain =>
        at := Blocks(z, x, y, op, at, 8, op, z0, x0, y0);
      case _ =>
        at := Blocks(z, x, y, op, at, 64, op, z0, x0, y0);
        at := Blocks(z, x, y, op, at, 16, op, z0, x0, y0);
    }
    Tail(z, x, y, op, at, op, z0, x0, y0);
  }

  /** Both ways of multiplying a byte. */
  lemma MulsAgree(c: Context, y: nat, b: Byte)
    requires c.Right() && y < 256
    ensures Num(b) < 256 && |c.mul[y]| == 256 && c.mul[y][Num(b)] == Mul(b, ByteOf(y))
    ensures |c.lo[y]| == |c.hi[y]| == 16 && Looked(c.lo[y], c.hi[y], b) == Mul(b, ByteOf(y))
  {
    hide Mul, Looked, Num, ByteOf;
    ByteNum(b);
    assert MulRow(c.mul[y], y, 256) && Halves(c.lo[y], c.hi[y], y);
    LookedIsMul(c.lo[y], c.hi[y], b, y);
  }

  /** z = y * x, or z += y * x: the wide registers look halves of bytes up, the rest whole bytes. */
  method Multiply(c: Context, z: array<Byte>, x: array<Byte>, y: nat, add: bool, cpu: Cpu)
    requires c.Right() && 1 < y < 256 && z.Length == x.Length
    modifies z
    ensures forall i :: 0 <= i < z.Length ==>
      z[i] == if add then Add(old(z[i]), Mul(old(x[i]), ByteOf(y))) else Mul(old(x[i]), ByteOf(y))
  {
    hide Add, Mul, Looked, Num, ByteOf;
    var f: Lane := (a, b, e) => if add then Add(a, Mul(b, ByteOf(y))) else Mul(b, ByteOf(y));
    var lo, hi, row := c.lo[y], c.hi[y], c.mul[y];
    forall b: Byte ensures Num(b) < 256 && |row| == 256 && row[Num(b)] == Mul(b, ByteOf(y)) && |lo| == |hi| == 16
      && Looked(lo, hi, b) == Mul(b, ByteOf(y)) {
      MulsAgree(c, y, b);
    }
    assert Num(ZERO) < 256 && |row| == 256 && |lo| == |hi| == 16;
    var wide: Lane := (a, b, e) => if add then Add(a, Looked(lo, hi, b)) else Looked(lo, hi, b);
    var narrow: Lane := (a, b, e) => if Num(b) < 256 then (if add then Add(a, row[Num(b)]) else row[Num(b)]) else ZERO;
    ghost var z0, x0 := z[..], x[..];
    assert Same(wide, f) && Same(narrow, f);
    var at := 0;
    if cpu.Avx2? {
      if add { at := Blocks(z, x, x, wide, at, 64, f, z0, x0, x0); }
      at := Blocks(z, x, x, wide, at, 32, f, z0, x0, x0);
    }
    if cpu.Ssse3? && add {
      at := Blocks(z, x, x, wide, at, 32, f, z0, x0, x0);
    }
    if cpu.Avx2? || cpu.Ssse3? || cpu.Neon? {
      at := Blocks(z, x, x, wide, at, 16, f, z0, x0, x0);
    }
    at := Blocks(z, x, x, narrow, at, 8, f, z0, x0, x0);
    Tail(z, x, x, narrow, at, f, z0, x0, x0);
  }

  /** z = y * x, also in place. */
  method MulMem(c: Context, z: array<Byte>, x: array<Byte>, y: nat, cpu: Cpu)
    requires c.Right() && y < 256 && z.Length == x.Length
    modifies z
    ensures forall i :: 0 <= i < z.Length ==> z[i] == Mul(old(x[i]), ByteOf(y))
  {
    hide Mul, ByteOf;
    if y <= 1 {
      ZeroFirst();
      OneFirst();
      forall b: Byte ensures Mul(b, ZERO) == ZERO && Mul(b, ONE) == b {
        MulZero(b);
        MulOne(b);
      }
      if y == 0 {
        forall i | 0 <= i < z.Length { z[i] := ZERO; }
      } else if z != x {
        forall i | 0 <= i < z.Length { z[i] := x[i]; }
      }
      return;
    }
    Multiply(c, z, x, y, false, cpu);
  }

  /** z += y * x */
  method MulAddMem(c: Context, z: array<Byte>, y: nat, x: array<Byte>, cpu: Cpu)
    requires c.Right() && y < 256 && z.Length == x.Length
    modifies z
    ensures forall i :: 0 <= i < z.Length ==> z[i] == Add(old(z[i]), Mul(old(x[i]), ByteOf(y)))
  {
    hide Mul, ByteOf, Add;
    if y == 0 {
      ZeroFirst();
      forall i | 0 <= i < z.Length ensures z[i] == Add(z[i], Mul(x[i], ByteOf(y))) {
        MulZero(x[i]);
        AddZero(z[i]);
      }
      return;
    }
    if y == 1 {
      OneFirst();
      forall b: Byte ensures Mul(b, ByteOf(y)) == b { MulOne(b); }
      AddMem(z, x, cpu);
      return;
    }
    Multiply(c, z, x, y, true, cpu);
  }

  /** z = x / y, by the inverse of y. */
  method DivMem(c: Context, z: array<Byte>, x: array<Byte>, y: nat, cpu: Cpu)
    requires c.Right() && 0 < y < 256 && z.Length == x.Length
    modifies z
    ensures forall i :: 0 <= i < z.Length ==> z[i] == Div(old(x[i]), ByteOf(y))
  {
    hide Mul, Div, ByteOf, Num;
    var inverse := if y == 1 then ONE else c.inv[y];
    OneFirst();
    NumByte(y);
    ByteNum(inverse);
    forall b: Byte ensures Mul(b, inverse) == Div(b, ByteOf(y)) {
      if y == 1 { DivOne(b); MulOne(b); } else { DivByInverse(b, ByteOf(y)); }
    }
    MulMem(c, z, x, Num(inverse), cpu);
  }

  lemma DivByInverse(b: Byte, y: Byte)
    requires y != ZERO
    ensures Mul(b, Div(ONE, y)) == Div(b, y)
  {
    hide Mul, Div;
    DivMul(b, y);
    DivMul(ONE, y);
    MulAssoc(b, Div(ONE, y), y);
    MulOne(b);
    MulCancel(Mul(b, Div(ONE, y)), Div(b, y), y);
  }
}

/** Which columns a row has: weight, walk parameters and the two column iterators. */
module Rows {
  import opened Columns

  const MAX_WEIGHT: nat := 64
  const MAX_N_FOR_WEIGHT_1: nat := 2048

  /** Probability of weight one, as a 32-bit fraction: 1/128. */
  const P1: nat := 33554431

  /** The table of weights, in two halves. */
  const LOW_SHARES: seq<nat> := [
    0x00000000, 0x7fffffff, 0xaaaaaaa9, 0xbfffffff, 0xcccccccb, 0xd5555554, 0xdb6db6da, 0xdfffffff,
    0xe38e38e2, 0xe6666665, 0xe8ba2e8a, 0xeaaaaaa9, 0xec4ec4eb, 0xedb6db6c, 0xeeeeeeed, 0xefffffff,
    0xf0f0f0ef, 0xf1c71c70, 0xf286bca0, 0xf3333332, 0xf3cf3cf2, 0xf45d1744, 0xf4de9bd2, 0xf5555554,
    0xf5c28f5b, 0xf6276275, 0xf684bda0, 0xf6db6db5, 0xf72c234e, 0xf7777776, 0xf7bdef7a, 0xf7ffffff]
  const HIGH_SHARES: seq<nat> := [
    0xf83e0f82, 0xf8787877, 0xf8af8af7, 0xf8e38e37, 0xf914c1b9, 0xf9435e4f, 0xf96f96f8, 0xf9999998,
    0xf9c18f9b, 0xf9e79e78, 0xfa0be82e, 0xfa2e8ba1, 0xfa4fa4f9, 0xfa6f4de8, 0xfa8d9df4, 0xfaaaaaa9,
    0xfac687d5, 0xfae147ad, 0xfafafaf9, 0xfb13b13a, 0xfb2b78c0, 0xfb425ecf, 0xfb586fb4, 0xfb6db6da,
    0xfb823edf, 0xfb9611a6, 0xfba93867, 0xfbbbbbba, 0xfbcda3ab, 0xfbdef7bc, 0xfbefbefa, 0xffffffff]

  /** The 32-bit fraction of rows with weight at most i + 1. */
  function Share(i: nat): nat
    requires i < MAX_WEIGHT
  {
    if i < 32 then LOW_SHARES[i] else HIGH_SHARES[i - 32]
  }

  lemma LowShare(i: nat)
    requires 1 <= i < 32
    ensures LOW_SHARES[i] == 0x1_0000_0000 * i / (i + 1) - 1
  {}

  lemma HighShare(k: nat)
    requires k < 31
    ensures HIGH_SHARES[k] == 0x1_0000_0000 * (k + 32) / (k + 33) - 1
  {}

  /** Apart from the ends, the share of weights up to i + 1 is i / (i + 1): the ideal soliton distribution. */
  lemma IdealSoliton(i: nat)
    requires 1 <= i < MAX_WEIGHT - 1
    ensures Share(i) == 0x1_0000_0000 * i / (i + 1) - 1
  {
    if i < 32 { LowShare(i); } else { HighShare(i - 32); }
  }

  lemma EndShares()
    ensures Share(0) == 0 && Share(MAX_WEIGHT - 1) == 0xffff_ffff && P1 == 0xffff_ffff / 128
  {}

  /** The least weight from w on whose share reaches rv. */
  function WeightFrom(rv: nat, w: nat): (r: nat)
    requires 1 <= w <= MAX_WEIGHT
    ensures w <= r <= MAX_WEIGHT
    decreases MAX_WEIGHT - w
  {
    if w == MAX_WEIGHT || rv <= Share(w - 1) then w else WeightFrom(rv, w + 1)
  }

  lemma {:induction false} WeightFromLeast(rv: nat, w: nat)
    requires 1 <= w <= MAX_WEIGHT
    ensures var r := WeightFrom(rv, w);
      (r < MAX_WEIGHT ==> rv <= Share(r - 1)) && forall i :: w - 1 <= i < r - 1 ==> Share(i) < rv
    decreases MAX_WEIGHT - w
  {
    hide Share;
    if w < MAX_WEIGHT && Share(w - 1) < rv { WeightFromLeast(rv, w + 1); }
  }

  /** The weight of a row: one with probability P1 in short codes, otherwise from the table. */
  function Weight(rv: nat, n: nat): (r: nat)
    ensures 1 <= r <= MAX_WEIGHT
  {
    if n <= MAX_N_FOR_WEIGHT_1 then if rv < P1 then 1 else WeightFrom(rv - P1, 2)
    else WeightFrom(rv, 2)
  }

  method GeneratePeelRowWeight(rv: nat, n: nat) returns (weight: nat)
    requires rv < 0x1_0000_0000
    ensures weight == Weight(rv, n)
  {
    hide Share;
    EndShares();
    var v := rv;
    if n <= MAX_N_FOR_WEIGHT_1 {
      if v < P1 {
        return 1;
      }
      v := v - P1;
    }
    if v <= Share(1) {
      return 2;
    }
    if v <= Share(2) {
      return 3;
    }
    weight := 3;
    while v > Share(weight)
      invariant 3 <= weight < MAX_WEIGHT
      invariant WeightFrom(v, 2) == WeightFrom(v, weight + 1)
      decreases MAX_WEIGHT - weight
    {
      weight := weight + 1;
    }
    weight := weight + 1;
  }

  /** Three 32-bit values from the generator seeded with the row id and the peel seed. */
  datatype Draws = Draws(weight: nat, peel: nat, mix: nat)

  datatype RowParameters = RowParameters(peelCount: nat, peelFirst: nat, peelAdd: nat, mixFirst: nat, mixAdd: nat)

  /** The parameters a code shares between encoder and decoder. mixCount is the number of
      dense rows plus the six heavy rows, and draws stands for the seeded generator. */
  datatype Code = Code(n: nat, prime: nat, mixCount: nat, mixPrime: nat, draws: nat -> Draws)

  ghost predicate ValidCode(c: Code) {
    && 2 <= c.n <= c.prime < 0x1_0000 && Prime(c.prime)
    && 6 <= c.mixCount <= c.mixPrime < 0x1_0000 && Prime(c.mixPrime)
  }

  /** The upper half of a draw gives the first column, the lower half the step. */
  function FirstAndStep(v: nat, n: nat): (r: (nat, nat))
    requires n >= 2
    ensures r.0 < n && 1 <= r.1 < n
  {
    ((v / 0x1_0000) % n, (v % 0x1_0000) % (n - 1) + 1)
  }

  /** PeelRowParameters::Initialize: at most n / 2 columns, and 16-bit halves of the draws. */
  function Initialize(d: Draws, n: nat, mixCount: nat): (r: RowParameters)
    requires n >= 2 && mixCount >= 2
    ensures 1 <= r.peelCount <= n / 2 && r.peelCount <= MAX_WEIGHT
    ensures r.peelFirst < n && 1 <= r.peelAdd < n
    ensures r.mixFirst < mixCount && 1 <= r.mixAdd < mixCount
  {
    var weight := Weight(d.weight % 0x1_0000_0000, n);
    var maxWeight := n / 2;
    var peel, mix := FirstAndStep(d.peel % 0x1_0000_0000, n), FirstAndStep(d.mix % 0x1_0000_0000, mixCount);
    RowParameters(if weight > maxWeight then maxWeight else weight, peel.0, peel.1, mix.0, mix.1)
  }

  /** Every walk through the sparse columns and every walk through the mixing columns is drawn, the one by the
      second draw, the other by the third, and neither depends on the other draws. */
  lemma EveryWalk(n: nat, mixCount: nat, x: nat, a: nat, y: nat, b: nat) returns (peel: nat, mix: nat)
    requires 2 <= n <= 0x1_0000 && 2 <= mixCount <= 0x1_0000
    requires x < n && 1 <= a < n && y < mixCount && 1 <= b < mixCount
    ensures peel < 0x1_0000_0000 && peel / 0x1_0000 == x && peel % 0x1_0000 == a - 1
    ensures mix < 0x1_0000_0000 && mix / 0x1_0000 == y && mix % 0x1_0000 == b - 1
    ensures forall w: nat, m: nat ::
      var r := Initialize(Draws(w, peel, m), n, mixCount); r.peelFirst == x && r.peelAdd == a
    ensures forall w: nat, p: nat ::
      var r := Initialize(Draws(w, p, mix), n, mixCount); r.mixFirst == y && r.mixAdd == b
  {
    hide Weight, FirstAndStep;
    peel, mix := x * 0x1_0000 + (a - 1), y * 0x1_0000 + (b - 1);
    EveryStart(n, x, a);
    EveryStart(mixCount, y, b);
  }

  lemma EveryStart(n: nat, x: nat, a: nat)
    requires 2 <= n <= 0x1_0000 && x < n && 1 <= a < n
    ensures FirstAndStep(x * 0x1_0000 + (a - 1), n) == (x, a)
  {
    var v := x * 0x1_0000 + (a - 1);
    assert v / 0x1_0000 == x && v % 0x1_0000 == a - 1;
    SmallMod(x, n);
    SmallMod(a - 1, n - 1);
  }

  lemma SmallMod(x: nat, n: nat)
    requires x < n
    ensures x % n == x
  {}

  /** The number of columns depends on the first draw alone, and is the weight as far as half of the columns go. */
  lemma CountOfWeight(w: nat, p: nat, m: nat, p': nat, m': nat, n: nat, mixCount: nat)
    requires n >= 2 && mixCount >= 2
    ensures Initialize(Draws(w, p, m), n, mixCount).peelCount == Initialize(Draws(w, p', m'), n, mixCount).peelCount
    ensures w < 0x1_0000_0000 && Weight(w, n) <= n / 2 ==>
      Initialize(Draws(w, p, m), n, mixCount).peelCount == Weight(w, n)
  {
    hide Weight, FirstAndStep;
  }

  predicate NoRepeat(s: seq<nat>) {
    forall i, j :: 0 <= i < j < |s| ==> s[i] != s[j]
  }

  /** The columns of the peeling part of row id. */
  function RowColumns(c: Code, id: nat): (s: seq<nat>)
    requires ValidCode(c)
    ensures 1 <= |s| <= MAX_WEIGHT
    ensures forall i :: 0 <= i < |s| ==> s[i] < c.n
    ensures NoRepeat(s)
  {
    var r := Initialize(c.draws(id), c.n, c.mixCount);
    WalkDistinct(r.peelFirst, c.n, c.prime, r.peelAdd, r.peelCount);
    Walk(r.peelFirst, c.n, c.prime, r.peelAdd, r.peelCount)
  }

  /** The three mixing columns of row id. */
  function RowMix(c: Code, id: nat): (s: seq<nat>)
    requires ValidCode(c)
    ensures |s| == 3
    ensures forall i :: 0 <= i < |s| ==> s[i] < c.mixCount
    ensures NoRepeat(s)
  {
    var r := Initialize(c.draws(id), c.n, c.mixCount);
    WalkDistinct(r.mixFirst, c.mixCount, c.mixPrime, r.mixAdd, 3);
    Walk(r.mixFirst, c.mixCount, c.mixPrime, r.mixAdd, 3)
  }

  /** The same three as columns of the whole matrix, behind the n sparse ones. */
  function MixColumns(c: Code, id: nat): (s: seq<nat>)
    requires ValidCode(c)
    ensures |s| == 3
    ensures forall i :: 0 <= i < |s| ==> c.n <= s[i] < c.n + c.mixCount
    ensures NoRepeat(s)
  {
    var m := RowMix(c, id);
    seq(3, k requires 0 <= k < 3 => c.n + m[k])
  }

  /** The iterator over the columns of a row, stepping in place. */
  class PeelRowIterator {
    const columnCount: nat
    const prime: nat
    const adder: nat
    var nextColumn: nat
    var columnsRemaining: nat

    ghost predicate Valid()
      reads this
    {
      Walkable(columnCount, prime, adder) && nextColumn < columnCount
    }

    /** The current column and those still to come. */
    ghost function Remaining(): seq<nat>
      requires Valid()
      reads this
    {
      Walk(nextColumn, columnCount, prime, adder, columnsRemaining + 1)
    }

    constructor (r: RowParameters, columnCount: nat, prime: nat)
      requires Walkable(columnCount, prime, r.peelAdd) && r.peelFirst < columnCount && r.peelCount > 0
      ensures Valid() && Remaining() == Walk(r.peelFirst, columnCount, prime, r.peelAdd, r.peelCount)
      ensures nextColumn == r.peelFirst && columnsRemaining == r.peelCount - 1
    {
      this.columnCount, this.prime, adder := columnCount, prime, r.peelAdd;
      nextColumn, columnsRemaining := r.peelFirst, r.peelCount - 1;
    }

    method Iterate() returns (more: bool)
      requires Valid()
      modifies this
      ensures Valid()
      ensures more <==> |old(Remaining())| > 1
      ensures Remaining() == if more then old(Remaining())[1..] else old(Remaining())
      ensures nextColumn == Remaining()[0]
    {
      if columnsRemaining == 0 {
        return false;
      }
      columnsRemaining := columnsRemaining - 1;
      nextColumn := IterateNextColumn(nextColumn, columnCount, prime, adder);
      return true;
    }
  }

  lemma CodeWalks(c: Code, id: nat)
    requires ValidCode(c)
    ensures c.n >= 2 && c.mixCount >= 2
    ensures var r := Initialize(c.draws(id), c.n, c.mixCount);
      Walkable(c.n, c.prime, r.peelAdd) && Walkable(c.mixCount, c.mixPrime, r.mixAdd)
  {}

  /** The columns an iterator goes through until it reports its end. */
  method Drain(iter: PeelRowIterator) returns (s: seq<nat>)
    requires iter.Valid() && |iter.Remaining()| >= 1 && iter.nextColumn == iter.Remaining()[0]
    modifies iter
    ensures s == old(iter.Remaining())
  {
    hide Walk, Walkable, Next;
    ghost var all := iter.Remaining();
    s := [iter.nextColumn];
    assert all == [all[0]] + all[1..];
    var more := iter.Iterate();
    while more
      invariant iter.Valid() && |iter.Remaining()| >= 1 && iter.nextColumn == iter.Remaining()[0]
      invariant all == if more then s + iter.Remaining() else s
      decreases if more then |iter.Remaining()| else 0
    {
      ghost var rest := iter.Remaining();
      assert rest == [rest[0]] + rest[1..];
      s := s + [iter.nextColumn];
      more := iter.Iterate();
    }
  }

  /** Iterating a row to its end lists exactly RowColumns. */
  method ListColumns(c: Code, id: nat) returns (s: seq<nat>)
    requires ValidCode(c)
    ensures s == RowColumns(c, id)
  {
    hide Initialize, ValidCode, Walk, NoRepeat, Walkable;
    CodeWalks(c, id);
    var r := Initialize(c.draws(id), c.n, c.mixCount);
    WalkFirst(r.peelFirst, c.n, c.prime, r.peelAdd, r.peelCount);
    var iter := new PeelRowIterator(r, c.n, c.prime);
    s := Drain(iter);
  }

  lemma WalkFirst(x: nat, b: nat, p: nat, a: nat, count: nat)
    requires Walkable(b, p, a) && x < b && count > 0
    ensures Walk(x, b, p, a, count)[0] == x
    ensures Walk(x, b, p, a, count)[1..] == Walk(Next(x, b, p, a), b, p, a, count - 1)
  {}

  /** The mixing columns as RowMixIterator fills them in. */
  method ListMix(c: Code, id: nat) returns (s: seq<nat>)
    requires ValidCode(c)
    ensures s == RowMix(c, id)
  {
    hide Initialize, ValidCode, NoRepeat, Settle, Next;
    CodeWalks(c, id);
    var r := Initialize(c.draws(id), c.n, c.mixCount);
    ghost var all := Walk(r.mixFirst, c.mixCount, c.mixPrime, r.mixAdd, 3);
    assert RowMix(c, id) == all;
    hide RowMix, Walk;
    var x: nat := r.mixFirst;
    WalkFirst(x, c.mixCount, c.mixPrime, r.mixAdd, 3);
    s := [x];
    var i: nat := 1;
    while i < 3
      invariant 1 <= i <= 3 && x < c.mixCount
      invariant all == s + Walk(x, c.mixCount, c.mixPrime, r.mixAdd, 4 - i)[1..]
    {
      WalkFirst(x, c.mixCount, c.mixPrime, r.mixAdd, 4 - i);
      x := IterateNextColumn(x, c.mixCount, c.mixPrime, r.mixAdd);
      WalkFirst(x, c.mixCount, c.mixPrime, r.mixAdd, 3 - i);
      s := s + [x];
      i := i + 1;
    }
  }
}

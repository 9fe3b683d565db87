/** Sums of block values over lists of columns, and rows of bits applied to them. */
module Sums {
  import opened GF256
  import opened Linear
  import opened Elimination
  import opened Rows

  ghost predicate Within(list: seq<nat>, n: nat) {
    forall k :: 0 <= k < |list| ==> list[k] < n
  }

  function SumOf(list: seq<nat>, z: Vec): Byte
    requires Within(list, |z|)
  {
    if list == [] then ZERO else Add(SumOf(list[..|list| - 1], z), z[list[|list| - 1]])
  }

  lemma {:induction false} SumAgree(list: seq<nat>, z: Vec, z': Vec)
    requires Within(list, |z|) && Within(list, |z'|)
    requires forall k :: 0 <= k < |list| ==> z[list[k]] == z'[list[k]]
    ensures SumOf(list, z) == SumOf(list, z')
  {
    hide Add;
    if list != [] { SumAgree(list[..|list| - 1], z, z'); }
  }

  lemma {:induction false} SumAdd(list: seq<nat>, u: Vec, v: Vec)
    requires |u| == |v| && Within(list, |u|)
    ensures SumOf(list, AddVec(u, v)) == Add(SumOf(list, u), SumOf(list, v))
  {
    hide Add;
    if list == [] {
      AddZero(ZERO);
    } else {
      var rest, c := list[..|list| - 1], list[|list| - 1];
      SumAdd(rest, u, v);
      AddSwap(SumOf(rest, u), SumOf(rest, v), u[c], v[c]);
    }
  }

  lemma {:induction false} SumZero(list: seq<nat>, z: Vec)
    requires Within(list, |z|)
    requires forall k :: 0 <= k < |list| ==> z[list[k]] == ZERO
    ensures SumOf(list, z) == ZERO
  {
    hide Add;
    if list != [] {
      SumZero(list[..|list| - 1], z);
      AddZero(ZERO);
    }
  }

  /** Changing the value of one column changes the sum of the lists that contain it. */
  lemma {:induction false} SumUpdate(list: seq<nat>, z: Vec, c: nat, a: Byte)
    requires Within(list, |z|) && c < |z| && NoRepeat(list)
    ensures c in list ==> SumOf(list, z[c := a]) == Add(SumOf(list, z), Add(z[c], a))
    ensures c !in list ==> SumOf(list, z[c := a]) == SumOf(list, z)
  {
    hide Add;
    if c !in list {
      SumAgree(list, z, z[c := a]);
    } else {
      var rest, x := list[..|list| - 1], list[|list| - 1];
      var s := SumOf(rest, z);
      if x == c {
        SumAgree(rest, z, z[c := a]);
        AddAssoc(s, z[c], Add(z[c], a));
        AddCancel(z[c], a);
      } else {
        SumUpdate(rest, z, c, a);
        AddAssoc(s, Add(z[c], a), z[x]);
        AddComm(Add(z[c], a), z[x]);
        AddAssoc(s, z[x], Add(z[c], a));
      }
    }
  }

  lemma SumNext(list: seq<nat>, k: nat, z: Vec)
    requires k < |list| && Within(list, |z|)
    ensures SumOf(list[..k + 1], z) == Add(SumOf(list[..k], z), z[list[k]])
  {
    assert list[..k + 1][..k] == list[..k];
  }

  lemma SumThree(list: seq<nat>, z: Vec)
    requires |list| == 3 && Within(list, |z|)
    ensures SumOf(list, z) == Add(Add(z[list[0]], z[list[1]]), z[list[2]])
  {
    hide Add;
    assert list[..2][..1][..0] == [];
    assert SumOf(list[..2][..1], z) == Add(ZERO, z[list[0]]);
    AddZero(z[list[0]]);
    assert SumOf(list[..2], z) == Add(SumOf(list[..2][..1], z), z[list[1]]);
  }

  // ---------- Rows of bits ----------

  function XorBits(a: Bits, b: Bits): (r: Bits)
    requires |a| == |b|
    ensures |r| == |a|
  {
    seq(|a|, c requires 0 <= c < |a| => a[c] != b[c])
  }

  function NoBits(n: nat): (r: Bits)
    ensures |r| == n
  {
    seq(n, _ => false)
  }

  function Flip(a: Bits, k: nat): (r: Bits)
    requires k < |a|
    ensures |r| == |a|
  {
    a[k := !a[k]]
  }

  /** A row of bits applied to values. */
  ghost function BitDot(a: Bits, y: Vec): Byte
    requires |a| == |y|
  {
    Dot(BitsRow(a), y, |a|)
  }

  lemma BitDotXor(a: Bits, b: Bits, y: Vec)
    requires |a| == |b| == |y|
    ensures BitDot(XorBits(a, b), y) == Add(BitDot(a, y), BitDot(b, y))
  {
    hide Add, Mul, Dot;
    forall c | 0 <= c < |a| ensures BitsRow(XorBits(a, b))[c] == AddVec(BitsRow(a), BitsRow(b))[c] {
      IfOne(a[c], b[c]);
    }
    assert BitsRow(XorBits(a, b)) == AddVec(BitsRow(a), BitsRow(b));
    DotAddVec(BitsRow(a), BitsRow(b), y, |a|);
  }

  lemma BitDotNone(n: nat, y: Vec)
    requires |y| == n
    ensures BitDot(NoBits(n), y) == ZERO
  {
    hide Add, Mul, Dot;
    DotZero(BitsRow(NoBits(n)), y, n);
  }

  lemma {:induction false} DotUnit(u: Vec, y: Vec, k: nat, m: nat)
    requires m <= |u| && m <= |y| && k < |u|
    requires forall c :: 0 <= c < |u| ==> u[c] == If(c == k, ONE)
    ensures Dot(u, y, m) == if k < m then y[k] else ZERO
  {
    hide Add, Mul;
    if m > 0 {
      DotUnit(u, y, k, m - 1);
      MulOne(y[m - 1]);
      MulZero(y[m - 1]);
      AddZero(ZERO);
      AddZero(y[m - 1]);
      if k < m - 1 { AddZero(y[k]); }
    }
  }

  lemma BitDotFlip(a: Bits, k: nat, y: Vec)
    requires |a| == |y| && k < |a|
    ensures BitDot(Flip(a, k), y) == Add(BitDot(a, y), y[k])
  {
    hide Add, Mul, Dot;
    var unit := NoBits(|a|)[k := true];
    assert XorBits(a, unit) == Flip(a, k);
    DotUnit(BitsRow(unit), y, k, |a|);
    BitDotXor(a, unit, y);
  }
}

/** The code itself: which equations a set of recovery blocks satisfies. Nothing here depends on
    how they are solved or on which rows were received. */
module Equations {
  import opened GF256
  import opened Linear
  import opened Elimination
  import opened Rows
  import opened Shuffle
  import opened Sums
  import opened Dense

  const HEAVY_COLUMNS: nat := 18

  /** How many spare rows a decoder has. */
  const MAX_EXTRA_ROWS: nat := 32

  function H(v: bv8): Byte { Byte(v) }

  const HEAVY_MATRIX: seq<Vec> := [
    [H(0x85), H(0xd3), H(0x66), H(0xf3), H(0x38), H(0x95), H(0x56), H(0xad), H(0x57), H(0xaf), H(0x58), H(0x48),
      H(0xbc), H(0xfa), H(0x02), H(0xc5), H(0x43), H(0xe8)],
    [H(0xd3), H(0x85), H(0xf3), H(0x66), H(0x95), H(0x38), H(0xad), H(0x56), H(0xaf), H(0x57), H(0x48), H(0x58),
      H(0xfa), H(0xbc), H(0xc5), H(0x02), H(0xe8), H(0x43)],
    [H(0x82), H(0x22), H(0x57), H(0xaf), H(0x56), H(0xad), H(0x38), H(0x95), H(0x66), H(0xf3), H(0x43), H(0xe8),
      H(0x02), H(0xc5), H(0xbc), H(0xfa), H(0x58), H(0x48)],
    [H(0x22), H(0x82), H(0xaf), H(0x57), H(0xad), H(0x56), H(0x95), H(0x38), H(0xf3), H(0x66), H(0xe8), H(0x43),
      H(0xc5), H(0x02), H(0xfa), H(0xbc), H(0x48), H(0x58)],
    [H(0x51), H(0x34), H(0x56), H(0xad), H(0x57), H(0xaf), H(0x66), H(0xf3), H(0x38), H(0x95), H(0x02), H(0xc5),
      H(0x43), H(0xe8), H(0x58), H(0x48), H(0xbc), H(0xfa)],
    [H(0x34), H(0x51), H(0xad), H(0x56), H(0xaf), H(0x57), H(0xf3), H(0x66), H(0x95), H(0x38), H(0xc5), H(0x02),
      H(0xe8), H(0x43), H(0x48), H(0x58), H(0xfa), H(0xbc)]]

  lemma HeavyShape(h: nat)
    requires h < HEAVY_ROWS
    ensures |HEAVY_MATRIX| == HEAVY_ROWS && |HEAVY_MATRIX[h]| == HEAVY_COLUMNS
  {
    hide H;
  }

  /** A code of n blocks: row generator, dense rows with their decks, and the block that ties the
      dense rows to mixing columns. */
  datatype System = System(code: Code, dense: nat, stream: Stream, block: seq<Bits>) {

    function Mix(): nat { dense + HEAVY_ROWS }

    /** Recovery blocks: one for each sparse and each mixing column. */
    function Size(): nat { code.n + Mix() }

    function HeavyCount(): nat { if Mix() < HEAVY_COLUMNS then Mix() else HEAVY_COLUMNS }
  }

  ghost predicate ValidSystem(s: System) {
    && ValidCode(s.code) && s.code.mixCount == s.Mix() && 1 <= s.dense
    && |s.block| == s.dense && forall r :: 0 <= r < s.dense ==> |s.block[r]| == s.dense
  }

  /** Heavy row h as far as there are mixing columns. */
  function Heavy(s: System, h: nat): (v: Vec)
    requires h < HEAVY_ROWS
    ensures |v| == s.HeavyCount()
  {
    HeavyShape(h);
    HEAVY_MATRIX[h][..s.HeavyCount()]
  }

  /** The block that row id sends when the recovery blocks are z. */
  ghost function RowLeft(s: System, id: nat, z: Vec): Byte
    requires ValidSystem(s) && |z| == s.Size()
  {
    Add(SumOf(RowColumns(s.code, id), z), SumOf(MixColumns(s.code, id), z))
  }

  ghost function DenseLeft(s: System, r: nat, z: Vec): Byte
    requires ValidSystem(s) && |z| == s.Size() && r < s.dense
  {
    var n, d := s.code.n, s.dense;
    Add(DenseSum(s.stream, d, WindowCount(n, d), r, z[..n]), BitDot(s.block[r], z[n..n + d]))
  }

  ghost function HeavyLeft(s: System, h: nat, z: Vec): Byte
    requires ValidSystem(s) && |z| == s.Size() && h < HEAVY_ROWS
  {
    Dot(Heavy(s, h), z[s.Size() - s.HeavyCount()..], s.HeavyCount())
  }

  /** Dense and heavy rows sum to zero. */
  ghost predicate Codeword(s: System, z: Vec)
    requires ValidSystem(s)
  {
    && |z| == s.Size()
    && (forall r :: 0 <= r < s.dense ==> DenseLeft(s, r, z) == ZERO)
    && (forall h :: 0 <= h < HEAVY_ROWS ==> HeavyLeft(s, h, z) == ZERO)
  }

  // ---------- Rows placed into wider rows ----------

  /** bits as columns offset, offset + 1, ... of a row of the given width. */
  function Inset(bits: Bits, offset: nat, width: nat): (r: Bits)
    ensures |r| == width
  {
    seq(width, c requires 0 <= c => offset <= c < offset + |bits| && bits[c - offset])
  }

  lemma {:induction false} InsetDot(bits: Bits, offset: nat, y: Vec)
    requires offset + |bits| <= |y|
    ensures BitDot(Inset(bits, offset, |y|), y) == BitDot(bits, y[offset..offset + |bits|])
  {
    hide Add, Mul;
    if bits == [] {
      assert Inset(bits, offset, |y|) == NoBits(|y|);
      BitDotNone(|y|, y);
    } else {
      var k := |bits| - 1;
      var rest, x := bits[..k], y[offset..offset + |bits|];
      InsetDot(rest, offset, y);
      assert y[offset..offset + k] == x[..k];
      DotAgree(BitsRow(rest), BitsRow(bits), x, k);
      DotTake(BitsRow(rest), x, k, k);
      var p := Inset(rest, offset, |y|);
      MulOne(x[k]);
      MulZero(x[k]);
      AddZero(BitDot(p, y));
      if bits[k] {
        assert Inset(bits, offset, |y|) == Flip(p, offset + k);
        BitDotFlip(p, offset + k, y);
      } else {
        assert Inset(bits, offset, |y|) == p;
      }
    }
  }

  lemma {:induction false} DotTake(u: Vec, x: Vec, k: nat, m: nat)
    requires m <= k <= |x| && m <= |u|
    ensures Dot(u, x[..k], m) == Dot(u, x, m)
  {
    hide Add, Mul;
    if m > 0 { DotTake(u, x, k, m - 1); }
  }

  lemma {:induction false} HeavyRowDot(bytes: Vec, first: nat, y: Vec, m: nat)
    requires m <= |bytes| && |y| == first + |bytes|
    ensures Dot(HeavyRow(bytes, first), y, first + m) == Dot(bytes, y[first..], m)
  {
    hide Add, Mul;
    if m == 0 {
      DotZero(HeavyRow(bytes, first), y, first);
    } else {
      HeavyRowDot(bytes, first, y, m - 1);
    }
  }
}

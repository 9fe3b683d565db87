/** The square block that ties the dense rows to their mixing columns: random words with a seed that is
    known to be good, written across word boundaries at any bit offset, or two diagonals. */
module Invertible {
  import opened GF256
  import opened Linear
  import opened Elimination
  import opened Sums
  import opened Equations
  import opened Packed

  type Words = nat -> Word

  /** How many words hold n bits. */
  function WordCount(n: nat): nat { (n + 63) / 64 }

  /** Bit j of a row whose words start at position at of the stream. */
  predicate StreamBit(words: Words, at: nat, j: nat) {
    IsSet(words(at + j / 64), j % 64)
  }

  /** The block: row i takes as many words as n bits need. */
  function Block(words: Words, n: nat): (b: seq<Bits>)
    ensures |b| == n && forall i :: 0 <= i < n ==> |b[i]| == n
  {
    seq(n, i requires 0 <= i < n => seq(n, j requires 0 <= j < n => StreamBit(words, i * WordCount(n), j)))
  }

  // ---------- One row ----------

  /** The bits of columns from offset on below end have been flipped where the stream has a bit. */
  ghost predicate FlippedTo(before: seq<Word>, after: seq<Word>, words: Words, at: nat, offset: nat, n: nat, end: nat)
  {
    && |after| == |before|
    && (forall c: nat :: c / 64 < |before| ==>
          (BitAt(after, c) <==> (BitAt(before, c) != (offset <= c < offset + n && c < end
            && StreamBit(words, at, c - offset)))))
  }

  /** The word that holds columns 64 * d and on: the rest of one random word and the start of the next. */
  function Joined(words: Words, at: nat, shift: nat, d: nat, target: nat): Word
    requires d > 0 && shift < 64
  {
    var prev := words(at + d - 1);
    var temp := if shift != 0 then ShiftRight(prev, 64 - shift) else Word(0);
    var both := if target > shift then Or(temp, ShiftLeft(words(at + d), shift)) else temp;
    if target < 64 then Lowest(both, target) else both
  }

  lemma NoBit(i: nat)
    requires i < 64
    ensures !IsSet(Word(0), i)
  {}

  lemma JoinedBit(words: Words, at: nat, shift: nat, d: nat, target: nat, i: nat)
    requires d > 0 && shift < 64 && i < 64
    ensures IsSet(Joined(words, at, shift, d, target), i) <==> i < target && StreamBit(words, at, 64 * d + i - shift)
  {
    hide IsSet, Lowest, Or, ShiftRight, ShiftLeft;
    var prev := words(at + d - 1);
    var temp := if shift != 0 then ShiftRight(prev, 64 - shift) else Word(0);
    NoBit(i);
    if shift != 0 { ShiftRightIsSet(prev, 64 - shift, i); }
    var next := words(at + d);
    var both := if target > shift then Or(temp, ShiftLeft(next, shift)) else temp;
    OrIsSet(temp, ShiftLeft(next, shift), i);
    ShiftLeftIsSet(next, shift, i);
    if target < 64 { LowIsSet(both, target, i); }
    var j := 64 * d + i - shift;
    if i < shift {
      assert j / 64 == d - 1 && j % 64 == i + 64 - shift;
    } else {
      assert j / 64 == d && j % 64 == i - shift;
    }
  }

  /** The first word, shifted into place. */
  function Started(word: Word, shift: nat, n: nat): Word {
    ShiftLeft(if n < 64 then Lowest(word, n) else word, shift)
  }

  lemma StartedBit(words: Words, at: nat, shift: nat, n: nat, i: nat)
    requires shift < 64 && i < 64
    ensures IsSet(Started(words(at), shift, n), i) <==> shift <= i && i - shift < n && StreamBit(words, at, i - shift)
  {
    hide IsSet, Lowest, ShiftLeft;
    var word := words(at);
    ShiftLeftIsSet(if n < 64 then Lowest(word, n) else word, shift, i);
    if n < 64 && shift <= i { LowIsSet(word, n, i - shift); }
    if shift <= i { assert (i - shift) / 64 == 0; }
  }

  lemma FlipFirst(before: seq<Word>, words: Words, at: nat, offset: nat, n: nat)
    requires offset / 64 < |before|
    ensures FlippedTo(before, before[offset / 64 := Xor(before[offset / 64], Started(words(at), offset % 64, n))],
      words, at, offset, n,
      64 * (offset / 64 + 1))
  {
    hide IsSet, Xor, Started, StreamBit;
    var first, shift := offset / 64, offset % 64;
    var word := Started(words(at), shift, n);
    var after := before[first := Xor(before[first], word)];
    forall c: nat | c / 64 < |before|
      ensures BitAt(after, c) <==> (BitAt(before, c) != (offset <= c < offset + n && c < 64 * (first + 1)
        && StreamBit(words, at, c - offset)))
    {
      if c / 64 == first {
        XorIsSet(before[first], word, c % 64);
        StartedBit(words, at, shift, n, c % 64);
        if offset <= c { assert c - offset == c % 64 - shift; }
      }
    }
  }

  lemma FlipNext(before: seq<Word>, after: seq<Word>, words: Words, at: nat, offset: nat, n: nat, d: nat)
    requires d > 0 && offset / 64 + d < |before| && 64 * d < offset % 64 + n
    requires FlippedTo(before, after, words, at, offset, n, 64 * (offset / 64 + d))
    ensures var x := offset / 64 + d; var target := offset % 64 + n - 64 * d;
      FlippedTo(before, after[x := Xor(after[x], Joined(words, at, offset % 64, d, target))], words, at, offset, n,
        64 * (x + 1))
  {
    hide IsSet, Xor, Joined, StreamBit;
    var shift, x := offset % 64, offset / 64 + d;
    var target := shift + n - 64 * d;
    var word := Joined(words, at, shift, d, target);
    var after' := after[x := Xor(after[x], word)];
    forall c: nat | c / 64 < |before|
      ensures BitAt(after', c) <==> (BitAt(before, c) != (offset <= c < offset + n && c < 64 * (x + 1)
        && StreamBit(words, at, c - offset)))
    {
      assert BitAt(after, c) <==> (BitAt(before, c) != (offset <= c < offset + n && c < 64 * x
        && StreamBit(words, at, c - offset)));
      if c / 64 == x {
        XorIsSet(after[x], word, c % 64);
        JoinedBit(words, at, shift, d, target, c % 64);
        assert c - offset == 64 * d + c % 64 - shift;
      }
    }
  }

  /** Add one random row of n bits at a bit offset: exactly the n columns from there on change, by the
      same bits whatever the offset, and ceil(n / 64) words of the stream are used. */
  method AddRow(row: array<Word>, words: Words, at: nat, offset: nat, n: nat) returns (next: nat)
    requires 1 <= n && offset + n <= 64 * row.Length
    modifies row
    ensures FlippedTo(old(row[..]), row[..], words, at, offset, n, offset + n)
    ensures next == at + WordCount(n)
  {
    hide IsSet, Xor, Lowest, Or, ShiftLeft, ShiftRight, FlippedTo;
    ghost var before := row[..];
    var shift := offset % 64;
    var dest := offset / 64;
    var target := n;
    var word0 := words(at);
    next := at + 1;
    var temp0 := word0;
    var written0 := 64 - shift;
    if target < 64 {
      temp0 := Lowest(temp0, target);
      if written0 > target {
        written0 := target;
      }
    }
    FlipFirst(before, words, at, offset, n);
    row[dest] := Xor(row[dest], ShiftLeft(temp0, shift));
    dest := dest + 1;
    target := target - written0;
    var prev := word0;
    if target > 0 {
      ghost var d := 1;
      while true
        invariant d >= 1 && dest == offset / 64 + d && target == shift + n - 64 * d > 0
        invariant prev == words(at + d - 1) && next == at + d
        invariant FlippedTo(before, row[..], words, at, offset, n, 64 * dest)
        decreases target
      {
        var temp := Word(0);
        if shift != 0 {
          temp := ShiftRight(prev, 64 - shift);
        }
        var word := Word(0);
        if target > shift {
          word := words(next);
          next := next + 1;
          temp := Or(temp, ShiftLeft(word, shift));
        }
        if target < 64 {
          temp := Lowest(temp, target);
        }
        FlipNext(before, row[..], words, at, offset, n, d);
        row[dest] := Xor(row[dest], temp);
        if target <= 64 {
          break;
        }
        target := target - 64;
        dest := dest + 1;
        prev := word;
        d := d + 1;
      }
    }
    FlippedEnd(before, row[..], words, at, offset, n, if target > 0 then 64 * (dest + 1) else 64 * dest);
  }

  lemma FlippedEnd(before: seq<Word>, after: seq<Word>, words: Words, at: nat, offset: nat, n: nat, end: nat)
    requires FlippedTo(before, after, words, at, offset, n, end) && offset + n <= end
    ensures FlippedTo(before, after, words, at, offset, n, offset + n)
  {
    hide BitAt, StreamBit;
  }

  // ---------- The whole block ----------

  /** In terms of bits: the row of the block is added to the columns from offset on. */
  lemma FlippedIsInset(before: seq<Word>, after: seq<Word>, words: Words, i: nat, offset: nat, n: nat, bits: Bits)
    requires i < n && offset + n <= |bits| && Packs(before, bits)
    requires FlippedTo(before, after, words, i * WordCount(n), offset, n, offset + n)
    ensures Packs(after, XorBits(bits, Inset(Block(words, n)[i], offset, |bits|)))
  {
    hide IsSet, WordCount;
    forall c: nat | c < |bits| ensures c / 64 < |after| && BitAt(after, c) ==
      XorBits(bits, Inset(Block(words, n)[i], offset, |bits|))[c] {
      PacksAt(before, bits, c);
    }
  }

  ghost predicate Separate(rows: seq<array<Word>>) {
    forall i, j :: 0 <= i < j < |rows| ==> rows[i] != rows[j]
  }

  /** Add the random block below the first row, from column offset on. The rows as bits change by the
      block, which does not depend on the offset. */
  method AddRandom(rows: seq<array<Word>>, words: Words, offset: nat, n: nat, ghost bits: seq<Bits>)
    requires 1 <= n <= |rows| == |bits| && Separate(rows)
    requires forall i :: 0 <= i < n ==> offset + n <= |bits[i]| && Packs(rows[i][..], bits[i])
    modifies set i | 0 <= i < n :: rows[i]
    ensures forall i :: 0 <= i < n ==> Packs(rows[i][..], XorBits(bits[i],
      Inset(Block(words, n)[i], offset, |bits[i]|)))
    ensures forall i :: n <= i < |rows| ==> rows[i][..] == old(rows[i][..])
  {
    hide FlippedTo, Packs, XorBits, Inset, Block;
    var at := 0;
    var i := 0;
    while i < n
      invariant 0 <= i <= n && at == i * WordCount(n)
      invariant forall k :: 0 <= k < i ==> Packs(rows[k][..],
        XorBits(bits[k], Inset(Block(words, n)[k], offset, |bits[k]|)))
      invariant forall k :: i <= k < |rows| ==> rows[k][..] == old(rows[k][..])
    {
      PacksAt(rows[i][..], bits[i], offset + n - 1);
      ghost var row := rows[i][..];
      at := AddRow(rows[i], words, at, offset, n);
      FlippedIsInset(row, rows[i][..], words, i, offset, n, bits[i]);
      i := i + 1;
    }
  }

  // ---------- Beyond the table: two diagonals ----------

  const MATRIX_SEED_COUNT: nat := 512

  function Diagonals(n: nat): (b: seq<Bits>)
    ensures |b| == n && forall i :: 0 <= i < n ==> |b[i]| == n
  {
    seq(n, i requires 0 <= i < n => seq(n, j requires 0 <= j < n => j == i || j == i + 1))
  }

  /** Flip the diagonal and the bit right of it. */
  method AddDiagonals(rows: seq<Bits>, offset: nat, n: nat) returns (r: seq<Bits>)
    requires MATRIX_SEED_COUNT <= n <= |rows| && forall i :: 0 <= i < n ==> offset + n <= |rows[i]|
    ensures |r| == |rows| && forall i :: n <= i < |rows| ==> r[i] == rows[i]
    ensures forall i :: 0 <= i < n ==> r[i] == XorBits(rows[i], Inset(Diagonals(n)[i], offset, |rows[i]|))
  {
    r := rows;
    var i := 0;
    while i < n
      invariant 0 <= i <= n && |r| == |rows| && forall k :: i <= k < |rows| ==> r[k] == rows[k]
      invariant forall k :: 0 <= k < i ==> r[k] == XorBits(rows[k], Inset(Diagonals(n)[k], offset, |rows[k]|))
    {
      var row := Flip(r[i], offset + i);
      if i + 1 < n { row := Flip(row, offset + i + 1); }
      assert row == XorBits(rows[i], Inset(Diagonals(n)[i], offset, |rows[i]|));
      r := r[i := row];
      i := i + 1;
    }
  }

  /** The sum of v from position i on. */
  function SuffixSum(v: Vec, i: nat): Byte
    requires i <= |v|
    decreases |v| - i
  {
    if i == |v| then ZERO else Add(v[i], SuffixSum(v, i + 1))
  }

  function SuffixSums(v: Vec): (r: Vec)
    ensures |r| == |v|
  {
    seq(|v|, i requires 0 <= i < |v| => SuffixSum(v, i))
  }

  lemma DiagonalRow(n: nat, i: nat, y: Vec)
    requires i < n == |y|
    ensures BitDot(Diagonals(n)[i], y) == if i + 1 < n then Add(y[i], y[i + 1]) else y[i]
  {
    hide BitDot, Add;
    var none := NoBits(n);
    BitDotNone(n, y);
    BitDotFlip(none, i, y);
    AddZero(y[i]);
    if i + 1 < n {
      BitDotFlip(Flip(none, i), i + 1, y);
      assert Diagonals(n)[i] == Flip(Flip(none, i), i + 1);
    } else {
      assert Diagonals(n)[i] == Flip(none, i);
    }
  }

  /** The block of two diagonals has an inverse: the sums of suffixes solve it ... */
  lemma DiagonalsSolved(v: Vec, i: nat)
    requires i < |v|
    ensures BitDot(Diagonals(|v|)[i], SuffixSums(v)) == v[i]
  {
    hide BitDot, Add;
    DiagonalRow(|v|, i, SuffixSums(v));
    var rest := SuffixSum(v, i + 1);
    AddCancel(rest, v[i]);
    AddComm(rest, v[i]);
    AddZero(v[i]);
    AddAssoc(v[i], rest, rest);
  }

  /** ... and nothing else does. */
  lemma {:induction false} DiagonalsUnique(v: Vec, y: Vec, i: nat)
    requires |y| == |v| && i <= |v| && forall k :: 0 <= k < |v| ==> BitDot(Diagonals(|v|)[k], y) == v[k]
    ensures forall k :: i <= k < |v| ==> y[k] == SuffixSums(v)[k]
    decreases |v| - i
  {
    hide BitDot, Add;
    if i < |v| {
      DiagonalsUnique(v, y, i + 1);
      DiagonalRow(|v|, i, y);
      if i + 1 < |v| {
        var rest := SuffixSum(v, i + 1);
        AddAssoc(y[i], rest, rest);
        AddZero(rest);
        AddZero(y[i]);
      } else {
        AddZero(v[i]);
        assert SuffixSum(v, |v|) == ZERO;
        assert SuffixSum(v, i) == Add(v[i], SuffixSum(v, i + 1));
      }
      assert y[i] == SuffixSum(v, i);
    }
  }
}

/** Rows of bits packed into 64-bit words, and what the word tricks of the solver do to them: the masked
    first word of an elimination, the mask that rotates from column to column, window bits that may
    straddle two words, and the multiplication of four heavy columns at once. */
module Packed {
  import opened GF256
  import opened Linear
  import opened Elimination
  import opened Windows

  // ---------- Words ----------

  datatype Word = Word(v: bv64)

  function Double(a: Word): Word { Word(a.v << 1) }

  function Halve(a: Word): Word { Word(a.v >> 1) }

  function And(a: Word, b: Word): Word { Word(a.v & b.v) }

  function Or(a: Word, b: Word): Word { Word(a.v | b.v) }

  function Xor(a: Word, b: Word): Word { Word(a.v ^ b.v) }

  /** All bits but those below the one bit of m. */
  function NotBelow(m: Word): Word { Word(!(m.v - 1)) }

  function Below(m: Word): Word { Word(m.v - 1) }

  predicate Zero(a: Word) { a.v == 0 }

  predicate OneBit(m: Word) {
    m.v != 0 && m.v & (m.v - 1) == 0
  }

  /** The top bit is clear. */
  predicate Small(m: Word) {
    m.v < 0x8000_0000_0000_0000
  }

  /** Shifts by more than one are shifts by one, repeated. */
  function ShiftRight(w: Word, s: nat): Word {
    if s == 0 then w else Halve(ShiftRight(w, s - 1))
  }

  function ShiftLeft(w: Word, s: nat): Word {
    if s == 0 then w else Double(ShiftLeft(w, s - 1))
  }

  /** Bit k of a word. */
  function Mask(k: nat): Word
    requires k < 64
  {
    if k == 0 then Word(1) else Double(Mask(k - 1))
  }

  predicate IsSet(w: Word, k: nat)
    requires k < 64
  {
    !Zero(And(w, Mask(k)))
  }

  /** The word with its bits up to k cleared, given that bit k is set: the masked first word. */
  function Masked(w: Word, k: nat): Word
    requires k < 64
  {
    Xor(And(w, NotBelow(Mask(k))), Mask(k))
  }

  /** The lowest t bits. */
  function Lowest(w: Word, t: nat): Word
    requires t < 64
  {
    And(w, Below(Mask(t)))
  }

  /** The mask for the next column is the rotated one, whether or not the word ends. */
  function RotateLeft(x: Word): Word {
    Word((x.v << 1) | (x.v >> 63))
  }

  // ---------- Single words ----------

  lemma DoubleOne(m: Word)
    requires OneBit(m) && !Zero(Double(m))
    ensures OneBit(Double(m)) && Small(m)
  {}

  lemma DoubleIn(a: Word, b: Word)
    ensures And(Double(a), Double(b)) == Double(And(a, b))
    ensures Small(a) ==> Small(And(a, b)) && Small(And(b, a))
  {}

  lemma BelowDouble(b: Word)
    requires Small(b) && !Zero(b)
    ensures Below(Double(b)) == Or(Double(Below(b)), Word(1))
  {}

  lemma DoubleOdd(a: Word, x: Word)
    ensures And(Double(a), Or(Double(x), Word(1))) == Double(And(a, x))
  {}

  lemma DoubleBelow(a: Word, b: Word)
    requires Small(b) && !Zero(b)
    ensures And(Double(a), Below(Double(b))) == Double(And(a, Below(b)))
  {
    hide And, Double, Below, Or, Small, Zero;
    BelowDouble(b);
    DoubleOdd(a, Below(b));
  }

  lemma DoubleSmall(a: Word)
    requires Small(a)
    ensures Zero(Double(a)) <==> Zero(a)
    ensures Halve(Double(a)) == a
  {}

  lemma DoubleFirst(b: Word)
    requires OneBit(Double(b))
    ensures And(Word(1), Below(Double(b))) == Word(1) && Zero(And(Double(b), Below(Word(1))))
      && Zero(And(Word(1), Double(b)))
  {}

  lemma OneChoice(a: Word, m: Word)
    requires OneBit(m)
    ensures Zero(And(a, m)) || And(a, m) == m
  {}

  lemma XorIn(a: Word, b: Word, m: Word)
    ensures And(Xor(a, b), m) == Xor(And(a, m), And(b, m))
  {}

  lemma XorChoice(a: Word, b: Word, m: Word)
    requires OneBit(m) && (Zero(a) || a == m) && (Zero(b) || b == m)
    ensures Zero(Xor(a, b)) <==> (Zero(a) <==> Zero(b))
  {}

  lemma OrIn(a: Word, b: Word, m: Word)
    ensures And(Or(a, b), m) == Or(And(a, m), And(b, m))
  {}

  lemma OrZero(a: Word, b: Word)
    ensures Zero(Or(a, b)) <==> Zero(a) && Zero(b)
  {}

  lemma MaskedSame(w: Word, m: Word)
    requires OneBit(m) && !Zero(And(w, m))
    ensures Zero(And(Xor(And(w, NotBelow(m)), m), m))
  {}

  lemma MaskedLow(w: Word, m: Word, q: Word)
    requires And(q, Below(m)) == q && Zero(And(q, m))
    ensures Zero(And(Xor(And(w, NotBelow(m)), m), q))
  {}

  lemma MaskedHigh(w: Word, m: Word, q: Word)
    requires Zero(And(q, Below(m))) && Zero(And(m, q))
    ensures And(Xor(And(w, NotBelow(m)), m), q) == And(w, q)
  {}

  lemma LowKept(w: Word, m: Word, q: Word)
    requires And(q, Below(m)) == q
    ensures And(And(w, Below(m)), q) == And(w, q)
  {}

  lemma LowCleared(w: Word, m: Word, q: Word)
    requires Zero(And(q, Below(m)))
    ensures Zero(And(And(w, Below(m)), q))
  {}

  lemma OneSelf(m: Word)
    requires OneBit(m)
    ensures Zero(And(m, Below(m))) && !Zero(m)
  {}

  lemma HalveIn(x: Word, m: Word)
    requires Small(m)
    ensures And(Halve(x), m) == Halve(And(x, Double(m)))
  {}

  lemma HalveEven(x: Word, m: Word)
    ensures Zero(Halve(And(x, Double(m)))) <==> Zero(And(x, Double(m)))
  {}

  lemma AndCommutes(a: Word, b: Word)
    ensures And(a, b) == And(b, a)
  {}

  lemma Ends(x: Word)
    ensures Zero(And(Halve(x), Word(0x8000_0000_0000_0000))) && Zero(And(Double(x), Word(1)))
    ensures RotateLeft(Word(0x8000_0000_0000_0000)) == Word(1) && OneBit(Word(1)) && Small(Word(1))
    ensures Small(x) ==> RotateLeft(x) == Double(x)
    ensures Zero(x) ==> Zero(Double(x))
  {}

  // ---------- Masks ----------

  lemma MaskNext(k: nat)
    requires k < 63
    ensures Mask(k + 1) == Double(Mask(k))
  {}

  lemma MaskThree(k: nat, w: Word)
    requires k < 61 && Mask(k) == w
    ensures Mask(k + 3) == Double(Double(Double(w)))
  {
    hide Double;
    MaskNext(k);
    MaskNext(k + 1);
    MaskNext(k + 2);
  }

  lemma MaskStart()
    ensures Mask(0) == Word(1)
  {}

  lemma MaskLast()
    ensures Mask(63) == Word(0x8000_0000_0000_0000)
  {
    hide Mask;
    MaskStart();
    MaskThree(0, Word(0x1));
    MaskThree(3, Word(0x8));
    MaskThree(6, Word(0x40));
    MaskThree(9, Word(0x200));
    MaskThree(12, Word(0x1000));
    MaskThree(15, Word(0x8000));
    MaskThree(18, Word(0x40000));
    MaskThree(21, Word(0x200000));
    MaskThree(24, Word(0x1000000));
    MaskThree(27, Word(0x8000000));
    MaskThree(30, Word(0x40000000));
    MaskThree(33, Word(0x200000000));
    MaskThree(36, Word(0x1000000000));
    MaskThree(39, Word(0x8000000000));
    MaskThree(42, Word(0x40000000000));
    MaskThree(45, Word(0x200000000000));
    MaskThree(48, Word(0x1000000000000));
    MaskThree(51, Word(0x8000000000000));
    MaskThree(54, Word(0x40000000000000));
    MaskThree(57, Word(0x200000000000000));
    MaskThree(60, Word(0x1000000000000000));
  }

  /** No mask is zero, since the last one is not. */
  lemma {:induction false} MaskNotZero(k: nat)
    requires k < 64
    ensures !Zero(Mask(k))
    decreases 64 - k
  {
    hide Mask, Double;
    if k == 63 {
      MaskLast();
    } else {
      MaskNotZero(k + 1);
      MaskNext(k);
      Ends(Mask(k));
    }
  }

  lemma {:induction false} MaskOne(k: nat)
    requires k < 64
    ensures OneBit(Mask(k)) && !Zero(Mask(k)) && (k < 63 ==> Small(Mask(k)))
  {
    hide Mask, Double, OneBit, Small, Zero;
    MaskNotZero(k);
    if k > 0 {
      MaskOne(k - 1);
      MaskNext(k - 1);
      DoubleOne(Mask(k - 1));
    } else {
      MaskStart();
      Ends(Word(1));
    }
    if k < 63 {
      MaskNotZero(k + 1);
      MaskNext(k);
      DoubleOne(Mask(k));
    }
  }

  lemma MaskDouble(i: nat, k: nat)
    requires i < k < 63 && And(Mask(i), Below(Mask(k))) == Mask(i) && Zero(And(Mask(k), Below(Mask(i))))
      && Zero(And(Mask(i), Mask(k)))
    ensures And(Double(Mask(i)), Below(Double(Mask(k)))) == Double(Mask(i))
    ensures Zero(And(Double(Mask(k)), Below(Double(Mask(i))))) && Zero(And(Double(Mask(i)), Double(Mask(k))))
  {
    hide Mask, Double, OneBit, Small, Zero, And, Below;
    var a, b := Mask(i), Mask(k);
    MaskOne(i);
    MaskOne(k);
    DoubleBelow(a, b);
    DoubleBelow(b, a);
    DoubleIn(a, b);
    DoubleIn(b, Below(a));
    DoubleSmall(And(b, Below(a)));
    DoubleSmall(And(a, b));
  }

  /** The masks of two columns have no bit in common, and the lower one lies below the higher. */
  lemma {:induction false} MaskOrder(i: nat, k: nat)
    requires i < k < 64
    ensures And(Mask(i), Below(Mask(k))) == Mask(i) && Zero(And(Mask(k), Below(Mask(i))))
    ensures Zero(And(Mask(i), Mask(k))) && Zero(And(Mask(k), Mask(i)))
  {
    hide Mask, Double, OneBit, Small, Zero, And, Below;
    MaskOne(k);
    MaskOne(k - 1);
    MaskNext(k - 1);
    AndCommutes(Mask(i), Mask(k));
    if i == 0 {
      MaskStart();
      DoubleFirst(Mask(k - 1));
    } else {
      MaskOrder(i - 1, k - 1);
      MaskOne(i - 1);
      MaskNext(i - 1);
      MaskDouble(i - 1, k - 1);
    }
  }

  lemma MaskRotates(c: nat)
    ensures RotateLeft(Mask(c % 64)) == Mask((c + 1) % 64)
  {
    hide Mask, Double, RotateLeft, OneBit, Small;
    var k := c % 64;
    if k == 63 {
      MaskLast();
      MaskStart();
      Ends(Word(1));
      assert (c + 1) % 64 == 0;
    } else {
      assert (c + 1) % 64 == k + 1;
      MaskOne(k);
      MaskNext(k);
      Ends(Mask(k));
    }
  }

  // ---------- Bits of words ----------

  lemma XorIsSet(a: Word, b: Word, i: nat)
    requires i < 64
    ensures IsSet(Xor(a, b), i) <==> IsSet(a, i) != IsSet(b, i)
  {
    hide Mask, OneBit, Zero, And, Xor;
    var m := Mask(i);
    MaskOne(i);
    OneChoice(a, m);
    OneChoice(b, m);
    XorIn(a, b, m);
    XorChoice(And(a, m), And(b, m), m);
  }

  lemma OrIsSet(a: Word, b: Word, i: nat)
    requires i < 64
    ensures IsSet(Or(a, b), i) <==> IsSet(a, i) || IsSet(b, i)
  {
    hide Mask, Zero, And, Or;
    OrIn(a, b, Mask(i));
    OrZero(And(a, Mask(i)), And(b, Mask(i)));
  }

  lemma MaskedIsSet(w: Word, k: nat, i: nat)
    requires k < 64 && i < 64 && IsSet(w, k)
    ensures IsSet(Masked(w, k), i) <==> i > k && IsSet(w, i)
  {
    hide Mask, OneBit, Zero, And, Xor, Below, NotBelow;
    if i < k {
      MaskOrder(i, k);
      MaskedLow(w, Mask(k), Mask(i));
    } else if i == k {
      MaskOne(k);
      MaskedSame(w, Mask(k));
    } else {
      MaskOrder(k, i);
      MaskedHigh(w, Mask(k), Mask(i));
    }
  }

  lemma LowIsSet(w: Word, t: nat, i: nat)
    requires t < 64 && i < 64
    ensures IsSet(Lowest(w, t), i) <==> i < t && IsSet(w, i)
  {
    hide Mask, OneBit, Zero, And, Below;
    if i < t {
      MaskOrder(i, t);
      LowKept(w, Mask(t), Mask(i));
    } else {
      if i == t { MaskOne(t); OneSelf(Mask(t)); } else { MaskOrder(t, i); }
      LowCleared(w, Mask(t), Mask(i));
    }
  }

  lemma HalveIsSet(x: Word, i: nat)
    requires i < 64
    ensures IsSet(Halve(x), i) <==> i < 63 && IsSet(x, i + 1)
  {
    hide Mask, OneBit, Zero, And, Halve, Double, Small;
    if i == 63 {
      MaskLast();
      Ends(x);
    } else {
      MaskOne(i);
      MaskNext(i);
      HalveIn(x, Mask(i));
      HalveEven(x, Mask(i));
    }
  }

  lemma DoubleIsSet(x: Word, i: nat)
    requires i < 64
    ensures IsSet(Double(x), i) <==> i > 0 && IsSet(x, i - 1)
  {
    hide Mask, OneBit, Zero, And, Halve, Double, Small;
    if i == 0 {
      MaskStart();
      Ends(x);
    } else {
      MaskOne(i - 1);
      MaskNext(i - 1);
      DoubleIn(x, Mask(i - 1));
      DoubleIn(Mask(i - 1), x);
      DoubleSmall(And(x, Mask(i - 1)));
    }
  }

  lemma {:induction false} ShiftRightIsSet(w: Word, s: nat, i: nat)
    requires i < 64
    ensures IsSet(ShiftRight(w, s), i) <==> i + s < 64 && IsSet(w, i + s)
  {
    hide IsSet, Halve;
    if s > 0 {
      HalveIsSet(ShiftRight(w, s - 1), i);
      if i < 63 { ShiftRightIsSet(w, s - 1, i + 1); }
    }
  }

  lemma {:induction false} ShiftLeftIsSet(w: Word, s: nat, i: nat)
    requires i < 64
    ensures IsSet(ShiftLeft(w, s), i) <==> s <= i && IsSet(w, i - s)
  {
    hide IsSet, Double;
    if s > 0 {
      DoubleIsSet(ShiftLeft(w, s - 1), i);
      if i > 0 { ShiftLeftIsSet(w, s - 1, i - 1); }
    }
  }

  // ---------- Packed rows ----------

  predicate BitAt(words: seq<Word>, c: nat)
    requires c / 64 < |words|
  {
    IsSet(words[c / 64], c % 64)
  }

  /** The words hold the bits of a row, the first column lowest; bits behind the last column do not matter. */
  ghost predicate Packs(words: seq<Word>, bits: Bits) {
    && |bits| <= 64 * |words|
    && (forall c :: 0 <= c < |bits| ==> BitAt(words, c) == bits[c])
  }

  lemma PacksAt(words: seq<Word>, bits: Bits, c: nat)
    requires Packs(words, bits) && c < |bits|
    ensures c / 64 < |words| && BitAt(words, c) == bits[c]
  {}

  /** words with row added from column pivot + 1 to the end of word end - 1. */
  ghost predicate WordsAdded(words: seq<Word>, words': seq<Word>, row: seq<Word>, pivot: nat, end: nat)
    requires |words| == |words'| == |row| && pivot / 64 < |row|
  {
    forall j :: 0 <= j < |row| ==>
      words'[j] == if j == pivot / 64 then Xor(words[j], Masked(row[j], pivot % 64))
                   else if pivot / 64 < j < end then Xor(words[j], row[j]) else words[j]
  }

  lemma AddedBit(words: seq<Word>, words': seq<Word>, row: seq<Word>, pivot: nat, c: nat)
    requires |words| == |words'| == |row| && pivot / 64 < |row| && c / 64 < |row|
    requires WordsAdded(words, words', row, pivot, |row|) && BitAt(row, pivot)
    ensures BitAt(words', c) <==> if c > pivot then BitAt(words, c) != BitAt(row, c) else BitAt(words, c)
  {
    hide IsSet, Masked, Xor;
    var j, i := c / 64, c % 64;
    if j == pivot / 64 {
      XorIsSet(words[j], Masked(row[j], pivot % 64), i);
      MaskedIsSet(row[j], pivot % 64, i);
    } else if j > pivot / 64 {
      XorIsSet(words[j], row[j], i);
    }
  }

  lemma AddedPacks(words: seq<Word>, words': seq<Word>, row: seq<Word>, pivot: nat, bits: Bits, piv: Bits)
    requires |words| == |words'| == |row| && |bits| == |piv| && pivot < |piv| && piv[pivot]
    requires Packs(words, bits) && Packs(row, piv) && WordsAdded(words, words', row, pivot, |row|)
    ensures Packs(words', AddAbove(bits, piv, pivot))
  {
    hide BitAt, WordsAdded;
    forall c | 0 <= c < |bits| ensures BitAt(words', c) == AddAbove(bits, piv, pivot)[c] {
      AddedBit(words, words', row, pivot, c);
      assert BitAt(words, c) == bits[c] && BitAt(row, c) == piv[c];
    }
  }

  /** Eliminate column pivot of a packed row by the pivot row: the first word is masked, so that the bit
      and those before it stay, and the others are added as they are. */
  method ClearRow(rem: array<Word>, row: seq<Word>, pivot: nat, ghost bits: Bits, ghost piv: Bits)
    requires |row| == rem.Length && |bits| == |piv| && pivot < |piv| && piv[pivot]
    requires Packs(rem[..], bits) && Packs(row, piv)
    modifies rem
    ensures Packs(rem[..], ClearLight(bits, piv, pivot))
  {
    hide IsSet, Packs, Masked, Xor;
    PacksAt(rem[..], bits, pivot);
    PacksAt(row, piv, pivot);
    ghost var before := rem[..];
    var offset := pivot / 64;
    if IsSet(rem[offset], pivot % 64) {
      rem[offset] := Xor(rem[offset], Masked(row[offset], pivot % 64));
      var ii := offset + 1;
      while ii < |row|
        invariant offset < ii <= |row|
        invariant WordsAdded(before, rem[..], row, pivot, ii)
      {
        rem[ii] := Xor(rem[ii], row[ii]);
        ii := ii + 1;
      }
      AddedPacks(before, rem[..], row, pivot, bits, piv);
    }
  }

  // ---------- Window bits ----------

  /** The number that the lowest t bits of a word write. */
  function Number(w: Word, t: nat): nat
    requires t <= 64
  {
    if t == 0 then 0 else Number(w, t - 1) + if IsSet(w, t - 1) then Pow2(t - 1) else 0
  }

  lemma {:induction false} NumberIsField(m: Word, bits: Bits, k: nat, w: nat)
    requires w <= 64 && k + w <= |bits| && forall i :: 0 <= i < w ==> IsSet(m, i) == bits[k + i]
    ensures Number(m, w) == Field(bits, k, w)
  {
    hide IsSet;
    if w > 0 { NumberIsField(m, bits, k, w - 1); }
  }

  /** Bits k .. k + w - 1 of a row; 32 bits of each shifted word are looked at. */
  function WindowOf(row: seq<Word>, k: nat, w: nat): Word
    requires 1 <= w <= 32 && (k + w - 1) / 64 < |row|
  {
    var first, shift := k / 64, k % 64;
    if first == (k + w - 1) / 64 then Lowest(Lowest(ShiftRight(row[first], shift), 32), w)
    else Lowest(Or(Lowest(ShiftRight(row[first], shift), 32), Lowest(ShiftLeft(row[first + 1], 64 - shift), 32)), w)
  }

  lemma WindowBit(row: seq<Word>, k: nat, w: nat, i: nat)
    requires 1 <= w <= 32 && (k + w - 1) / 64 < |row| && i < w
    ensures IsSet(WindowOf(row, k, w), i) == BitAt(row, k + i)
  {
    hide IsSet, Lowest, Or, ShiftRight, ShiftLeft;
    var first, shift := k / 64, k % 64;
    var high := ShiftRight(row[first], shift);
    ShiftRightIsSet(row[first], shift, i);
    LowIsSet(high, 32, i);
    if first == (k + w - 1) / 64 {
      LowIsSet(Lowest(high, 32), w, i);
      assert (k + i) / 64 == first && (k + i) % 64 == shift + i;
    } else {
      var low := ShiftLeft(row[first + 1], 64 - shift);
      ShiftLeftIsSet(row[first + 1], 64 - shift, i);
      LowIsSet(low, 32, i);
      OrIsSet(Lowest(high, 32), Lowest(low, 32), i);
      LowIsSet(Or(Lowest(high, 32), Lowest(low, 32)), w, i);
      if shift + i < 64 {
        assert (k + i) / 64 == first && (k + i) % 64 == shift + i;
      } else {
        assert (k + i) / 64 == first + 1 && (k + i) % 64 == shift + i - 64;
      }
    }
  }

  lemma WindowHigh(row: seq<Word>, k: nat, w: nat, i: nat)
    requires 1 <= w <= 32 && (k + w - 1) / 64 < |row| && w <= i < 64
    ensures !IsSet(WindowOf(row, k, w), i)
  {
    hide IsSet, Lowest, Or, ShiftRight, ShiftLeft;
    var first, shift := k / 64, k % 64;
    var high := Lowest(ShiftRight(row[first], shift), 32);
    if first == (k + w - 1) / 64 { LowIsSet(high, w, i); }
    else { LowIsSet(Or(high, Lowest(ShiftLeft(row[first + 1], 64 - shift), 32)), w, i); }
  }

  /** A window of a packed row is the number that the table of sums is indexed with, and has no other bits. */
  lemma WindowIsField(row: seq<Word>, bits: Bits, k: nat, w: nat)
    requires Packs(row, bits) && k + w <= |bits| && 1 <= w <= 32
    ensures (k + w - 1) / 64 < |row| && Number(WindowOf(row, k, w), w) == Field(bits, k, w)
    ensures forall i :: w <= i < 64 ==> !IsSet(WindowOf(row, k, w), i)
  {
    hide IsSet, WindowOf, BitAt;
    PacksAt(row, bits, k + w - 1);
    var m := WindowOf(row, k, w);
    forall i | 0 <= i < w ensures IsSet(m, i) == bits[k + i] {
      WindowBit(row, k, w, i);
      PacksAt(row, bits, k + i);
    }
    NumberIsField(m, bits, k, w);
    forall i | w <= i < 64 ensures !IsSet(m, i) { WindowHigh(row, k, w, i); }
  }

  // ---------- Four heavy columns at once ----------

  /** Four bytes of a heavy row as one 32-bit word. */
  datatype Quad = Quad(v: bv32)

  const MULT_LOOKUP: seq<Quad> := [
    Quad(0x00000000), Quad(0x00000001), Quad(0x00000100), Quad(0x00000101),
    Quad(0x00010000), Quad(0x00010001), Quad(0x00010100), Quad(0x00010101),
    Quad(0x01000000), Quad(0x01000001), Quad(0x01000100), Quad(0x01000101),
    Quad(0x01010000), Quad(0x01010001), Quad(0x01010100), Quad(0x01010101)]

  /** The four bytes of a word, lowest first. */
  function Lane(p: Quad, t: nat): Byte
    requires t < 4
  {
    Byte(((if t == 0 then p.v else if t == 1 then p.v >> 8 else if t == 2 then p.v >> 16 else p.v >> 24) & 0xff) as bv8)
  }

  /** The product of 32-bit integers. */
  function Times(p: Quad, code: Byte): Quad {
    Quad(p.v * (code.bits as bv32))
  }

  /** Byte t of the table entry for four bits, multiplied by a code byte. */
  function Product(m: Word, code: Byte, t: nat): Byte
    requires Number(m, 4) < |MULT_LOOKUP| && t < 4
  {
    Lane(Times(MULT_LOOKUP[Number(m, 4)], code), t)
  }

  function Index(a: bool, b: bool, c: bool, d: bool): (n: nat)
    ensures n < 16
  {
    (if a then 1 else 0) + (if b then 2 else 0) + (if c then 4 else 0) + (if d then 8 else 0)
  }

  function Entry(a: bool, b: bool, c: bool, d: bool): Quad {
    Quad((if a then 1 else 0) + (if b then 0x100 else 0) + (if c then 0x1_0000 else 0) + (if d then 0x100_0000 else 0))
  }

  lemma EntryIs(a: bool, b: bool, c: bool, d: bool)
    ensures |MULT_LOOKUP| == 16 && MULT_LOOKUP[Index(a, b, c, d)] == Entry(a, b, c, d)
  {}

  lemma EntryLanes(code: Byte, a: bool, b: bool, c: bool, d: bool)
    ensures var p := Times(Entry(a, b, c, d), code);
      Lane(p, 0) == If(a, code) && Lane(p, 1) == If(b, code) && Lane(p, 2) == If(c, code) && Lane(p, 3) == If(d, code)
  {}

  lemma NumberIsIndex(m: Word)
    ensures Number(m, 4) == Index(IsSet(m, 0), IsSet(m, 1), IsSet(m, 2), IsSet(m, 3))
  {
    hide IsSet;
    PowerTable();
    assert Number(m, 2) == Number(m, 1) + if IsSet(m, 1) then 2 else 0;
  }

  lemma ProductIs(m: Word, code: Byte, t: nat)
    requires t < 4
    ensures Number(m, 4) < |MULT_LOOKUP| && Product(m, code, t) == If(IsSet(m, t), code)
  {
    hide IsSet, Lane, Index, Number, Entry, Times, If;
    var a, b, c, d := IsSet(m, 0), IsSet(m, 1), IsSet(m, 2), IsSet(m, 3);
    NumberIsIndex(m);
    EntryIs(a, b, c, d);
    EntryLanes(code, a, b, c, d);
  }

  /** A byte of a heavy row with code added where the pivot row has a bit. */
  function Added(byte: Byte, row: seq<Word>, c: nat, code: Byte): Byte
    requires c / 64 < |row|
  {
    Add(byte, If(BitAt(row, c), code))
  }

  /** The cells of columns above pivot and below c have been added to. */
  ghost predicate AddedTo(before: Vec, after: Vec, row: seq<Word>, pivot: nat, first: nat, c: nat, code: Byte)
    requires c <= 64 * |row|
  {
    && |after| == |before|
    && (forall x :: 0 <= x < |before| ==>
          after[x] == if pivot < first + x < c then Added(before[x], row, first + x, code) else before[x])
  }

  /** One column, where bits are tested singly. */
  method AddColumn(rem: array<Byte>, row: seq<Word>, pivot: nat, first: nat, c: nat, code: Byte, ghost before: Vec)
    requires first <= pivot < c < 64 * |row| && c - first < rem.Length
      && AddedTo(before, rem[..], row, pivot, first, c, code)
    modifies rem
    ensures AddedTo(before, rem[..], row, pivot, first, c + 1, code)
  {
    hide BitAt, Add;
    AddZero(rem[c - first]);
    if BitAt(row, c) {
      rem[c - first] := Add(rem[c - first], code);
    }
  }

  /** The four bits from column c on, a multiple of four. */
  lemma FourBits(row: seq<Word>, c: nat, t: nat)
    requires c % 4 == 0 && c / 64 < |row| && (c + t) / 64 < |row| && t < 4
    ensures IsSet(Lowest(ShiftRight(row[c / 64], c % 64), 4), t) == BitAt(row, c + t)
  {
    hide IsSet, Lowest, ShiftRight;
    var w := row[c / 64];
    ShiftRightIsSet(w, c % 64, t);
    LowIsSet(ShiftRight(w, c % 64), 4, t);
    SameWord(c, t);
  }

  lemma SameWord(c: nat, t: nat)
    requires c % 4 == 0 && t < 4
    ensures (c + t) / 64 == c / 64 && (c + t) % 64 == c % 64 + t < 64
  {
    assert c == 64 * (c / 64) + c % 64 && c % 64 % 4 == 0;
  }

  /** The columns up to the next multiple of four. */
  method AddOdd(rem: array<Byte>, row: seq<Word>, pivot: nat, first: nat, code: Byte, ghost before: Vec)
    returns (c: nat)
    requires first <= pivot < 64 * |row| && pivot + 3 - first < rem.Length && rem[..] == before
    modifies rem
    ensures c % 4 == 0 && pivot < c <= pivot + 4 && c <= 64 * |row|
      && AddedTo(before, rem[..], row, pivot, first, c, code)
  {
    hide BitAt, AddedTo;
    var odd := pivot % 4;
    c := pivot + 1;
    assert AddedTo(before, rem[..], row, pivot, first, c, code) by { NothingAdded(before, row, pivot, first, code); }
    if odd == 0 {
      AddColumn(rem, row, pivot, first, c, code, before);
      c := c + 1;
    }
    if odd <= 1 {
      AddColumn(rem, row, pivot, first, c, code, before);
      c := c + 1;
    }
    if odd <= 2 {
      AddColumn(rem, row, pivot, first, c, code, before);
      c := pivot + (4 - odd);
    }
  }

  lemma NothingAdded(before: Vec, row: seq<Word>, pivot: nat, first: nat, code: Byte)
    requires pivot + 1 <= 64 * |row|
    ensures AddedTo(before, before, row, pivot, first, pivot + 1, code)
  {}

  /** Four columns by one table entry. */
  method AddFour(rem: array<Byte>, row: seq<Word>, pivot: nat, first: nat, c: nat, code: Byte, ghost before: Vec)
    requires first <= pivot < c && c + 4 <= 64 * |row| && c % 4 == 0 && c + 3 - first < rem.Length
    requires AddedTo(before, rem[..], row, pivot, first, c, code)
    modifies rem
    ensures AddedTo(before, rem[..], row, pivot, first, c + 4, code)
  {
    hide BitAt, Add, If, Product, Lowest, ShiftRight, Number, IsSet;
    var m := Lowest(ShiftRight(row[c / 64], c % 64), 4);
    var x := c - first;
    ProductIs(m, code, 0);
    forall t | 0 <= t < 4 ensures Product(m, code, t) == If(BitAt(row, c + t), code) {
      ProductIs(m, code, t);
      FourBits(row, c, t);
    }
    rem[x], rem[x + 1], rem[x + 2], rem[x + 3] :=
      Add(rem[x], Product(m, code, 0)), Add(rem[x + 1], Product(m, code, 1)),
      Add(rem[x + 2], Product(m, code, 2)), Add(rem[x + 3], Product(m, code, 3));
  }

  /** Add a byte times a pivot row of bits to a heavy row: odd columns singly, then four at a time. What
      lands in the padding behind the last column does not matter. */
  method MultiplyHeavy(rem: array<Byte>, row: seq<Word>, pivot: nat, first: nat, columns: nat, code: Byte,
    ghost bits: Bits)
    requires Packs(row, bits) && |bits| == columns && first <= pivot < columns && columns - first + 3 <= rem.Length
    modifies rem
    ensures rem[..columns - first] == AddBits(old(rem[..columns - first]), bits, first, pivot - first, code)
  {
    hide Packs, BitAt, AddedTo, AddBits;
    ghost var before := rem[..];
    PacksAt(row, bits, columns - 1);
    assert columns <= 64 * |row|;
    var c := AddOdd(rem, row, pivot, first, code, before);
    while c < columns
      invariant c % 4 == 0 && pivot < c && c <= 64 * |row|
      invariant AddedTo(before, rem[..], row, pivot, first, c, code)
    {
      FourFit(c, columns, |row|);
      AddFour(rem, row, pivot, first, c, code, before);
      c := c + 4;
    }
    AddedAll(before, rem[..], row, pivot, first, c, code, bits);
    assert before[..columns - first] == old(rem[..columns - first]);
  }

  lemma FourFit(c: nat, columns: nat, words: nat)
    requires c % 4 == 0 && c < columns <= 64 * words
    ensures c + 4 <= 64 * words && (c + 4) % 4 == 0
  {}

  lemma AddedAll(before: Vec, after: Vec, row: seq<Word>, pivot: nat, first: nat, c: nat, code: Byte, bits: Bits)
    requires Packs(row, bits) && first <= pivot < |bits| <= c <= 64 * |row| && |bits| - first <= |before|
    requires AddedTo(before, after, row, pivot, first, c, code)
    ensures after[..|bits| - first] == AddBits(before[..|bits| - first], bits, first, pivot - first, code)
  {
    hide BitAt, Add, If, Packs;
    var n := |bits| - first;
    forall x | 0 <= x < n ensures after[x] == AddBits(before[..n], bits, first, pivot - first, code)[x] {
      PacksAt(row, bits, first + x);
    }
  }
}

/** The GE matrix before elimination: dense rows multiplied by the compression rows of the peeled
    columns, the deferred rows, the block that ties dense rows to mixing columns, the heavy rows. */
module Assembly {
  import opened GF256
  import opened Linear
  import opened Elimination
  import opened Shuffle
  import opened PeelState
  import opened Sums
  import opened Diagonal
  import opened Dense
  import opened Equations

  const MAX_DENSE_ROWS: nat := 500

  /** The rows of a window after the first and the first half. */
  function SecondCount(d: nat): (r: nat)
    requires d > 0
    ensures 1 + d / 2 + r == d
  {
    d / 2 + d % 2 - 1
  }

  /** A peeled column knows the row that solves it, a deferred one its GE column. */
  ghost predicate ColumnKnown(cm: seq<Mark>, uses: seq<Use>, n: nat, width: nat, c: nat) {
    && c < |cm| && c < |uses|
    && if cm[c].Peel? then uses[c].SolvedBy? && uses[c].row < n else uses[c].GEColumn? && uses[c].column < width
  }

  ghost predicate ColumnsKnown(cm: seq<Mark>, uses: seq<Use>, compress: seq<Bits>, n: nat, width: nat) {
    && |cm| == |uses| == |compress| == n
    && (forall q :: 0 <= q < n ==> |compress[q]| == width)
    && (forall c :: 0 <= c < n ==> ColumnKnown(cm, uses, n, width, c))
  }

  /** What column c of the sparse part is in terms of GE columns. */
  ghost function SourceOf(cm: seq<Mark>, uses: seq<Use>, compress: seq<Bits>, n: nat, width: nat, c: nat): (r: Bits)
    requires ColumnsKnown(cm, uses, compress, n, width)
    ensures |r| == width
  {
    if c >= n then NoBits(width)
    else
      assert ColumnKnown(cm, uses, n, width, c);
      if cm[c].Peel? then compress[uses[c].row] else NoBits(width)[uses[c].column := true]
  }

  class Assembler {
    const system: System
    const n: nat
    const denseCount: nat
    const deferCount: nat
    const extraCount: nat
    const width: nat
    const nexts: seq<nat>
    const deferHead: nat
    const columnMarks: seq<Mark>
    const uses: seq<Use>
    const compress: seq<Bits>
    const stream: Stream
    ghost const defers: seq<nat>

    var ge: seq<Bits>
    var heavy: seq<Vec>
    var geRowMap: seq<nat>

    /** A cleared matrix with room for extra rows. */
    constructor (system: System, deferCount: nat, extraCount: nat, nexts: seq<nat>, deferHead: nat,
      columnMarks: seq<Mark>, uses: seq<Use>, compress: seq<Bits>, ghost defers: seq<nat>)
      ensures this.system == system && n == system.code.n && denseCount == system.dense && stream == system.stream
      ensures this.deferCount == deferCount && this.extraCount == extraCount && width == deferCount + system.Mix()
      ensures this.nexts == nexts && this.deferHead == deferHead && this.columnMarks == columnMarks && this.uses == uses
      ensures this.compress == compress && this.defers == defers
      ensures |ge| == denseCount + deferCount + extraCount && |geRowMap| == width + extraCount
      ensures |heavy| == extraCount + HEAVY_ROWS && forall r :: 0 <= r < |heavy| ==> |heavy[r]| == system.HeavyCount()
      ensures forall r :: 0 <= r < |ge| ==> ge[r] == NoBits(width)
    {
      this.system, this.deferCount, this.extraCount := system, deferCount, extraCount;
      n, denseCount, stream := system.code.n, system.dense, system.stream;
      width := deferCount + system.Mix();
      this.nexts, this.deferHead, this.columnMarks, this.uses := nexts, deferHead, columnMarks, uses;
      this.compress, this.defers := compress, defers;
      ge := seq(system.dense + deferCount + extraCount, _ => NoBits(deferCount + system.Mix()));
      heavy := seq(extraCount + HEAVY_ROWS, _ => Zeros(system.HeavyCount()));
      geRowMap := seq(deferCount + system.Mix() + extraCount, _ => 0);
    }

    ghost predicate Fixed() {
      1 <= denseCount <= MAX_DENSE_ROWS && ColumnsKnown(columnMarks, uses, compress, n, width)
    }

    ghost predicate Linked0() {
      && ValidSystem(system) && system.code.n == n && system.dense == denseCount && system.stream == stream
      && width == deferCount + system.Mix()
      && Linked(nexts, defers, deferHead) && |nexts| == n < LIST_TERM && |defers| == deferCount
    }

    ghost predicate Sized()
      reads this
    {
      |ge| >= denseCount && forall r :: 0 <= r < |ge| ==> |ge[r]| == width
    }

    ghost function Source(c: nat): (r: Bits)
      requires Fixed()
      ensures |r| == width
    {
      SourceOf(columnMarks, uses, compress, n, width, c)
    }

    ghost function Sources(column: nat): (r: seq<Bits>)
      requires Fixed()
      ensures |r| == denseCount && forall b :: 0 <= b < denseCount ==> |r[b]| == width
    {
      var r := seq(denseCount, b requires 0 <= b < denseCount => Source(column + b));
      assert forall b :: 0 <= b < denseCount ==> r[b] == Source(column + b);
      r
    }

    /** Add column c, unless it lies beyond the last one. */
    method AddColumn(temp: Bits, c: nat) returns (r: Bits)
      requires Fixed() && |temp| == width
      ensures r == XorBits(temp, Source(c))
    {
      if c < n {
        assert ColumnKnown(columnMarks, uses, n, width, c);
        if columnMarks[c].Peel? {
          r := XorBits(temp, compress[uses[c].row]);
        } else {
          r := Flip(temp, uses[c].column);
          assert r == XorBits(temp, Source(c));
        }
      } else {
        r := temp;
        assert r == XorBits(temp, NoBits(width));
      }
    }

    /** The first row of a window: the sum of half of the columns. */
    method FirstSum(deck: seq<nat>, column: nat) returns (temp: Bits)
      requires Fixed() && |deck| == denseCount && Permutes(deck)
      ensures Within(deck[..SetCount(denseCount)], denseCount)
      ensures temp == XorSum(deck[..SetCount(denseCount)], Sources(column), width)
    {
      hide Fixed, XorSum;
      ghost var src := Sources(column);
      temp := NoBits(width);
      assert temp == XorSum(deck[..0], src, width) by { XorSumNone(deck, src, width); }
      var i := 0;
      while i < SetCount(denseCount)
        invariant 0 <= i <= SetCount(denseCount)
        invariant |temp| == width && temp == XorSum(deck[..i], src, width)
      {
        XorSumNext(deck[..i], deck[i], src, width);
        assert deck[..i + 1] == deck[..i] + [deck[i]];
        temp := AddColumn(temp, column + deck[i]);
        i := i + 1;
      }
    }

    /** Rows from..from + count of a window: two columns change from each to the next. */
    method NextRows(ghost w: Window, rowDeck: seq<nat>, deck: seq<nat>, column: nat, temp0: Bits, from: nat, count: nat,
      ghost ge0: seq<Bits>)
      returns (temp: Bits)
      requires Fixed() && WindowOk(w, denseCount) && rowDeck == w.rows && 0 < from && from + count <= denseCount
      requires Flipping(w, denseCount, deck, from, count)
      requires RowsSummed(ge0, ge, w, denseCount, Sources(column), width, from)
      requires Within(Pattern(w, denseCount, from - 1), denseCount)
        && temp0 == XorSum(Pattern(w, denseCount, from - 1), Sources(column), width)
      modifies `ge
      ensures RowsSummed(ge0, ge, w, denseCount, Sources(column), width, from + count)
      ensures from + count > 0 && Within(Pattern(w, denseCount, from + count - 1), denseCount)
      ensures temp == XorSum(Pattern(w, denseCount, from + count - 1), Sources(column), width)
    {
      hide Fixed, XorSum, XorBits, RowsSummed, Flips, Permutes;
      ghost var src := Sources(column);
      temp := temp0;
      var i := 0;
      while i < count
        invariant 0 <= i <= count && |temp| == width
        invariant RowsSummed(ge0, ge, w, denseCount, src, width, from + i)
        invariant Within(Pattern(w, denseCount, from + i - 1), denseCount)
        invariant temp == XorSum(Pattern(w, denseCount, from + i - 1), src, width)
      {
        PatternNext(w, denseCount, from + i, src, width);
        ghost var flips := Flips(w, denseCount, from + i);
        var bit0 := deck[i];
        var bit1 := deck[SetCount(denseCount) + i];
        assert flips == (bit0, bit1);
        temp := AddColumn(temp, column + bit0);
        temp := AddColumn(temp, column + bit1);
        RowsSummedNext(ge0, ge, w, denseCount, src, width, from + i, temp);
        var row := rowDeck[from + i];
        ge := ge[row := XorBits(ge[row], temp)];
        i := i + 1;
      }
    }

    /** Shuffle a deck in place and read it. */
    method Deal(at: nat, cards: array<nat>) returns (deck: seq<nat>, end: nat)
      requires 1 <= denseCount <= MAX_DENSE_ROWS == cards.Length
      modifies cards
      ensures deck == Deck(stream, at, denseCount) && end == DeckEnd(stream, at, denseCount)
    {
      hide Deck, DeckEnd;
      end := ShuffleDeck16(stream, at, cards, denseCount);
      deck := cards[..denseCount];
    }

    /** One window: two halves of rows after the first, each with a deck of its own. */
    method DenseWindow(cards: array<nat>, at: nat, column: nat) returns (end: nat)
      requires Fixed() && Sized() && cards.Length == MAX_DENSE_ROWS
      modifies `ge, cards
      ensures WindowOk(WindowAt(stream, at, denseCount), denseCount) && end == WindowEnd(stream, at, denseCount)
      ensures RowsSummed(old(ge), ge, WindowAt(stream, at, denseCount), denseCount, Sources(column), width, denseCount)
    {
      hide XorSum, XorBits, RowsSummed, Permutes, ColumnsKnown, Deck, DeckEnd, Flipping, Pattern;
      var d := denseCount;
      ghost var w := WindowAt(stream, at, d);
      WindowsOk(stream, at, d);
      ghost var src, ge0 := Sources(column), ge;
      RowsSummedNone(ge, w, d, src, width);
      FlippingHalves(w, d);
      PatternFirst(w, d);
      var rows, bits;
      rows, end := Deal(at, cards);
      bits, end := Deal(end, cards);
      var temp := FirstSum(bits, column);
      RowsSummedNext(ge0, ge, w, d, src, width, 0, temp);
      ge := ge[rows[0] := XorBits(ge[rows[0]], temp)];
      bits, end := Deal(end, cards);
      temp := NextRows(w, rows, bits, column, temp, 1, d / 2, ge0);
      bits, end := Deal(end, cards);
      temp := NextRows(w, rows, bits, column, temp, 1 + d / 2, SecondCount(d), ge0);
    }

    /** Dense row r after the first k windows. */
    ghost function DenseBits(k: nat, r: nat): (s: Bits)
      requires Fixed() && r < denseCount
      ensures |s| == width
    {
      if k == 0 then NoBits(width) else
        var at := WindowStart(stream, k - 1, denseCount);
        WindowsOk(stream, at, denseCount);
        RowSummed(DenseBits(k - 1, r), WindowAt(stream, at, denseCount), denseCount,
          Sources(StartColumn(k - 1, denseCount)), width, r)
    }

    /** All windows, from left to right. */
    method MultiplyDenseRows()
      requires Fixed() && Sized() && forall r :: 0 <= r < denseCount ==> ge[r] == NoBits(width)
      modifies `ge
      ensures Sized() && |ge| == |old(ge)|
      ensures forall r :: 0 <= r < |ge| ==>
        ge[r] == if r < denseCount then DenseBits(WindowCount(n, denseCount), r) else old(ge)[r]
    {
      hide ColumnsKnown, Sources, WindowAt, WindowEnd;
      var cards := new nat[MAX_DENSE_ROWS];
      var column, at := 0, 0;
      ghost var k := 0;
      while column < n
        invariant Sized() && |ge| == |old(ge)|
        invariant column == StartColumn(k, denseCount) && at == WindowStart(stream, k, denseCount)
        invariant LastWindow(n, denseCount, k) == WindowCount(n, denseCount)
        invariant forall r :: 0 <= r < |ge| ==> ge[r] == if r < denseCount then DenseBits(k, r) else old(ge)[r]
        decreases n - column
      {
        ghost var ge0 := ge;
        ghost var at0 := at;
        at := DenseWindow(cards, at, column);
        SummedAll(ge0, ge, WindowAt(stream, at0, denseCount), denseCount, Sources(column), width);
        column := column + denseCount;
        k := k + 1;
      }
    }

    ghost function ColumnDots(y: Vec): (v: Vec)
      requires Fixed() && |y| == width
      ensures |v| == n
    {
      seq(n, c requires 0 <= c < n => BitDot(Source(c), y))
    }

    /** A dense row applied to the GE columns is its columns applied to what each stands for. */
    lemma {:induction false} DenseBitsDot(k: nat, r: nat, y: Vec)
      requires Fixed() && r < denseCount && |y| == width
      ensures BitDot(DenseBits(k, r), y) == DenseSum(stream, denseCount, k, r, ColumnDots(y))
    {
      hide Add, BitDot, Pattern, WindowAt, WindowEnd, Permutes, ColumnsKnown, Source, Sources, RowSummed;
      if k == 0 {
        BitDotNone(width, y);
      } else {
        DenseBitsDot(k - 1, r, y);
        var at, column := WindowStart(stream, k - 1, denseCount), StartColumn(k - 1, denseCount);
        WindowsOk(stream, at, denseCount);
        RowSummedDot(DenseBits(k - 1, r), WindowAt(stream, at, denseCount), denseCount, Sources(column), r, y);
        SourceSlice(column, y);
      }
    }

    lemma SourceSlice(column: nat, y: Vec)
      requires Fixed() && |y| == width
      ensures Dots(Sources(column), y) == Slice(ColumnDots(y), column, denseCount)
    {
      hide BitDot, ColumnsKnown, SourceOf;
      var a, b := Dots(Sources(column), y), Slice(ColumnDots(y), column, denseCount);
      BitDotNone(width, y);
      forall i | 0 <= i < denseCount ensures a[i] == b[i] {
        if column + i >= n { assert Source(column + i) == NoBits(width) by { SourceBeyond(column + i); } }
      }
    }

    lemma SourceBeyond(c: nat)
      requires Fixed() && c >= n
      ensures Source(c) == NoBits(width)
    {}

    /** The deferred rows go below the dense rows, and each GE row of theirs knows its row. */
    method CopyDeferredRows()
      requires Fixed() && Linked0() && |ge| == denseCount + deferCount + extraCount
      requires |geRowMap| == width + extraCount && forall r :: 0 <= r < |ge| ==> |ge[r]| == width
      modifies `ge, `geRowMap
      ensures |ge| == |old(ge)| && |geRowMap| == |old(geRowMap)|
      ensures forall r :: 0 <= r < |ge| ==>
        |ge[r]| == width && ge[r] == if denseCount <= r < denseCount + deferCount then DeferredRow(r) else old(ge)[r]
      ensures forall i :: 0 <= i < deferCount ==> geRowMap[denseCount + i] == defers[i]
    {
      hide Linked;
      LinkNext(nexts, defers, deferHead, 0);
      var row := deferHead;
      var i := 0;
      while row != LIST_TERM
        invariant 0 <= i <= deferCount && row == (if i < deferCount then defers[i] else LIST_TERM)
        invariant |ge| == |old(ge)| && |geRowMap| == |old(geRowMap)|
        invariant forall r :: 0 <= r < |ge| ==>
          |ge[r]| == width && ge[r] == if denseCount <= r < denseCount + i then DeferredRow(r) else old(ge)[r]
        invariant forall j :: 0 <= j < i ==> geRowMap[denseCount + j] == defers[j]
        decreases deferCount - i
      {
        LinkNext(nexts, defers, deferHead, i);
        ge := ge[denseCount + i := compress[row]];
        geRowMap := geRowMap[denseCount + i := row];
        row := nexts[row];
        i := i + 1;
      }
      if i < deferCount { LinkNext(nexts, defers, deferHead, i); }
    }

    ghost function DeferredRow(r: nat): Bits
      requires Fixed() && Linked0() && denseCount <= r < denseCount + deferCount
    {
      LinkNext(nexts, defers, deferHead, r - denseCount);
      compress[defers[r - denseCount]]
    }

    /** Tie the dense rows to as many mixing columns by an invertible block. */
    method AddInvertible()
      requires Fixed() && Linked0() && Sized()
      modifies `ge
      ensures Sized() && |ge| == |old(ge)|
      ensures forall r :: 0 <= r < |ge| ==>
        ge[r] == if r < denseCount then XorBits(old(ge)[r], Inset(system.block[r], deferCount, width)) else old(ge)[r]
    {
      hide XorBits, Inset;
      var r := 0;
      while r < denseCount
        invariant 0 <= r <= denseCount && Sized() && |ge| == |old(ge)|
        invariant forall q :: 0 <= q < |ge| ==>
          ge[q] == if q < r then XorBits(old(ge)[q], Inset(system.block[q], deferCount, width)) else old(ge)[q]
      {
        ge := ge[r := XorBits(ge[r], Inset(system.block[r], deferCount, width))];
        r := r + 1;
      }
    }

    /** The six heavy rows come after the space for extra rows. */
    method SetHeavyRows()
      requires Linked0() && |heavy| == extraCount + HEAVY_ROWS
      requires forall r :: 0 <= r < |heavy| ==> |heavy[r]| == system.HeavyCount()
      modifies `heavy
      ensures |heavy| == |old(heavy)| && forall r :: 0 <= r < |heavy| ==> |heavy[r]| == system.HeavyCount()
      ensures forall h :: 0 <= h < HEAVY_ROWS ==> heavy[extraCount + h] == Heavy(system, h)
    {
      hide Heavy;
      var h := 0;
      while h < HEAVY_ROWS
        invariant 0 <= h <= HEAVY_ROWS && |heavy| == |old(heavy)|
        invariant forall r :: 0 <= r < |heavy| ==> |heavy[r]| == system.HeavyCount()
        invariant forall g :: 0 <= g < h ==> heavy[extraCount + g] == Heavy(system, g)
      {
        heavy := heavy[extraCount + h := Heavy(system, h)];
        h := h + 1;
      }
    }

    /** The GE matrix as elimination finds it. */
    ghost predicate Assembled()
      reads this
    {
      && Fixed() && Linked0()
      && |ge| == denseCount + deferCount + extraCount && |geRowMap| == width + extraCount
      && (forall r :: 0 <= r < |ge| ==> |ge[r]| == width)
      && (forall r :: 0 <= r < denseCount ==>
            ge[r] == XorBits(DenseBits(WindowCount(n, denseCount), r), Inset(system.block[r], deferCount, width)))
      && (forall r :: denseCount <= r < denseCount + deferCount ==>
            ge[r] == DeferredRow(r) && geRowMap[r] == defers[r - denseCount])
      && |heavy| == extraCount + HEAVY_ROWS && (forall r :: 0 <= r < |heavy| ==> |heavy[r]| == system.HeavyCount())
      && (forall h :: 0 <= h < HEAVY_ROWS ==> heavy[extraCount + h] == Heavy(system, h))
    }

    /** Build the GE matrix from the cleared one. */
    method Assemble()
      requires Fixed() && Linked0() && |ge| == denseCount + deferCount + extraCount && |geRowMap| == width + extraCount
      requires forall r :: 0 <= r < |ge| ==> |ge[r]| == width
      requires forall r :: 0 <= r < denseCount ==> ge[r] == NoBits(width)
      requires |heavy| == extraCount + HEAVY_ROWS && forall r :: 0 <= r < |heavy| ==> |heavy[r]| == system.HeavyCount()
      modifies this
      ensures Assembled()
    {
      hide ColumnsKnown, Linked, Heavy, XorBits, Inset, DenseBits, ValidSystem;
      CopyDeferredRows();
      MultiplyDenseRows();
      SetHeavyRows();
      AddInvertible();
      forall r | denseCount <= r < denseCount + deferCount ensures geRowMap[r] == defers[r - denseCount] {
        assert geRowMap[denseCount + (r - denseCount)] == defers[r - denseCount];
      }
    }
  }

  /** The columns that change rows from..from + count are read off both halves of the deck. */
  ghost predicate Flipping(w: Window, d: nat, deck: seq<nat>, from: nat, count: nat)
    requires WindowOk(w, d) && 0 < from && from + count <= d
  {
    forall t :: from <= t < from + count ==>
      |deck| == d && SetCount(d) + (t - from) < d
      && Flips(w, d, t) == (deck[t - from], deck[SetCount(d) + (t - from)])
  }

  lemma FlippingHalves(w: Window, d: nat)
    requires WindowOk(w, d)
    ensures Flipping(w, d, w.second, 1, d / 2) && Flipping(w, d, w.third, 1 + d / 2, SecondCount(d))
  {
    assert SetCount(d) == d / 2 + d % 2 && d == d / 2 + SetCount(d);
    forall t | 1 + d / 2 <= t < 1 + d / 2 + SecondCount(d)
      ensures SetCount(d) + (t - (1 + d / 2)) < d
        && Flips(w, d, t) == (w.third[t - (1 + d / 2)], w.third[SetCount(d) + (t - (1 + d / 2))])
    {
      assert !(t <= d / 2);
    }
  }

  lemma PatternFirst(w: Window, d: nat)
    requires WindowOk(w, d)
    ensures Pattern(w, d, 0) == w.first[..SetCount(d)]
  {}

  lemma SummedAll(ge0: seq<Bits>, ge: seq<Bits>, w: Window, d: nat, src: seq<Bits>, n: nat)
    requires WindowOk(w, d) && |src| == d && forall c :: 0 <= c < d ==> |src[c]| == n
    requires RowsSummed(ge0, ge, w, d, src, n, d)
    ensures |ge| == |ge0| && forall r :: 0 <= r < |ge| ==> |ge0[r]| == n && |ge[r]| == n
    ensures forall r :: 0 <= r < |ge| ==> ge[r] == if r < d then RowSummed(ge0[r], w, d, src, n, r) else ge0[r]
  {
    hide RowSummed;
    forall r | 0 <= r < d ensures Find(w.rows, r) < d { PermutesHas(w.rows, r); }
  }

  lemma XorSumNone(deck: seq<nat>, src: seq<Bits>, n: nat)
    requires forall c :: 0 <= c < |src| ==> |src[c]| == n
    ensures XorSum(deck[..0], src, n) == NoBits(n)
  {}

  lemma PatternNext(w: Window, d: nat, t: nat, src: seq<Bits>, n: nat)
    requires WindowOk(w, d) && 0 < t < d && |src| == d && forall c :: 0 <= c < d ==> |src[c]| == n
    requires Within(Pattern(w, d, t - 1), d)
    ensures Within(Pattern(w, d, t), d) && Flips(w, d, t).0 < d && Flips(w, d, t).1 < d
    ensures XorSum(Pattern(w, d, t), src, n)
      == XorBits(XorBits(XorSum(Pattern(w, d, t - 1), src, n), src[Flips(w, d, t).0]), src[Flips(w, d, t).1])
  {
    hide XorSum, XorBits, Flips;
    FlipsDiffer(w, d, t);
    var f, list := Flips(w, d, t), Pattern(w, d, t - 1);
    XorSumNext(list, f.0, src, n);
    XorSumNext(list + [f.0], f.1, src, n);
    assert Pattern(w, d, t) == list + [f.0] + [f.1];
  }
}
/** Stage 4 begins: the right side of every chosen GE row, from input blocks and from the temporary
    blocks of the peeled columns, which are still in place. */
module Evaluation {
  import opened GF256
  import opened Linear
  import opened Shuffle
  import opened PeelState
  import opened Sums
  import opened Assembly
  import opened Dense
  import opened Equations

  /** Column k of the memory if it is peeled, otherwise nothing. */
  ghost function PeeledOnly(marks: seq<Mark>, memory: Vec): (t: Vec)
    requires |marks| <= |memory|
    ensures |t| == |marks|
  {
    seq(|marks|, c requires 0 <= c < |marks| => if marks[c].Peel? then memory[c] else ZERO)
  }

  // ---------- One window over block values ----------

  /** The cells in dest are different; LIST_TERM stands for a row that was not chosen. */
  ghost predicate Targets(dest: seq<nat>, d: nat, limit: nat) {
    && d <= |dest|
    && (forall r :: 0 <= r < d ==> dest[r] == LIST_TERM || dest[r] < limit)
    && (forall q, r :: 0 <= q < r < d && dest[q] != LIST_TERM ==> dest[q] != dest[r])
  }

  /** The targets of rows whose place in the window is before t have the sum of their columns added. */
  ghost predicate ValuesSummed(memory0: Vec, memory: Vec, w: Window, d: nat, src: Vec, dest: seq<nat>, temp: nat,
    t: nat)
    requires WindowOk(w, d) && |src| == d
  {
    && |memory| == |memory0| && Targets(dest, d, temp) && temp < |memory|
    && (forall r :: 0 <= r < d && dest[r] != LIST_TERM ==>
          memory[dest[r]] == if Find(w.rows, r) < t then ValueSummed(memory0[dest[r]], w, d, src, r)
            else memory0[dest[r]])
    && (forall x :: 0 <= x < |memory| && x != temp && x !in dest[..d] ==> memory[x] == memory0[x])
  }

  ghost function ValueSummed(value: Byte, w: Window, d: nat, src: Vec, r: nat): Byte
    requires WindowOk(w, d) && |src| == d && r < d
  {
    PermutesHas(w.rows, r);
    PatternWithin(w, d, Find(w.rows, r));
    Add(value, SumOf(Pattern(w, d, Find(w.rows, r)), src))
  }

  lemma ValuesSummedNone(memory: Vec, w: Window, d: nat, src: Vec, dest: seq<nat>, temp: nat)
    requires WindowOk(w, d) && |src| == d && Targets(dest, d, temp) && temp < |memory|
    ensures ValuesSummed(memory, memory, w, d, src, dest, temp, 0)
  {}

  /** A change of the temporary cell does not matter. */
  lemma ValuesTemp(memory0: Vec, memory: Vec, w: Window, d: nat, src: Vec, dest: seq<nat>, temp: nat, t: nat, a: Byte)
    requires WindowOk(w, d) && |src| == d && ValuesSummed(memory0, memory, w, d, src, dest, temp, t)
    ensures ValuesSummed(memory0, memory[temp := a], w, d, src, dest, temp, t)
  {}

  lemma ValuesSummedNext(memory0: Vec, memory: Vec, memory': Vec, w: Window, d: nat, src: Vec, dest: seq<nat>,
    temp: nat, t: nat)
    requires WindowOk(w, d) && |src| == d && ValuesSummed(memory0, memory, w, d, src, dest, temp, t) && t < d
    requires Within(Pattern(w, d, t), d) && w.rows[t] < d
    requires var c := dest[w.rows[t]];
      if c == LIST_TERM then memory' == memory
      else c < |memory| && memory' == memory[c := Add(memory[c], SumOf(Pattern(w, d, t), src))]
    ensures ValuesSummed(memory0, memory', w, d, src, dest, temp, t + 1)
  {
    hide SumOf, Add, Pattern;
    var q := w.rows[t];
    FindAt(w.rows, t);
    forall r | 0 <= r < d && dest[r] != LIST_TERM
      ensures memory'[dest[r]] == if Find(w.rows, r) < t + 1 then ValueSummed(memory0[dest[r]], w, d, src, r)
        else memory0[dest[r]]
    {
      PermutesHas(w.rows, r);
    }
    assert dest[q] in dest[..d];
  }

  /** The block that stands for the sum so far: none, a column, or the temporary cell. */
  datatype Combo = Unused | At(cell: nat)

  class Evaluator {
    const system: System
    const n: nat
    const denseCount: nat
    const columnMarks: seq<Mark>
    const stream: Stream
    const dest: seq<nat>

    var recovery: Vec

    constructor (system: System, columnMarks: seq<Mark>, dest: seq<nat>, recovery: Vec)
      ensures this.system == system && n == system.code.n && denseCount == system.dense && stream == system.stream
      ensures this.columnMarks == columnMarks && this.dest == dest && this.recovery == recovery
    {
      this.system, n, denseCount, stream := system, system.code.n, system.dense, system.stream;
      this.columnMarks, this.dest, this.recovery := columnMarks, dest, recovery;
    }

    ghost predicate Fixed() {
      && ValidSystem(system) && n == system.code.n == |columnMarks| && denseCount == system.dense
        && stream == system.stream
      && Targets(dest, denseCount, n + system.Mix())
      && (forall r :: 0 <= r < denseCount && dest[r] < n ==> !columnMarks[dest[r]].Peel?)
    }

    ghost predicate Sized()
      reads this
    {
      |recovery| == n + system.Mix() + 1
    }

    /** The peeled columns of a window. */
    ghost function Sources(column: nat): Vec
      requires Fixed() && Sized()
      reads this
    {
      Slice(PeeledOnly(columnMarks, recovery), column, denseCount)
    }

    /** Is column c of a window that starts there peeled, and not beyond the last one? */
    predicate IsPeeled(c: nat)
      requires n <= |columnMarks|
    {
      c < n && columnMarks[c].Peel?
    }

    lemma SourceAt(column: nat, b: nat)
      requires Fixed() && Sized() && b < denseCount
      ensures Sources(column)[b] == if IsPeeled(column + b) then recovery[column + b] else ZERO
      ensures IsPeeled(column + b) ==> column + b < |recovery|
    {}

    /** The first row of a window: the sum of half of the columns, formed in the temporary cell
        unless there is nothing to add. */
    method FirstSum(deck: seq<nat>, column: nat) returns (any: bool)
      requires Fixed() && Sized() && |deck| == denseCount && Permutes(deck)
      modifies this
      ensures Sized() && recovery == old(recovery)[n + system.Mix() := recovery[n + system.Mix()]]
      ensures Within(deck[..SetCount(denseCount)], denseCount)
      ensures recovery[n + system.Mix()] == SumOf(deck[..SetCount(denseCount)], old(Sources(column)))
      ensures !any ==> recovery[n + system.Mix()] == ZERO
    {
      hide Fixed, SumOf, Add;
      var temp := n + system.Mix();
      ghost var src, memory := Sources(column), recovery;
      var combo := Unused;
      var i := 0;
      assert SumOf(deck[..0], src) == ZERO by { SumNone(deck, src); }
      FixedBounds();
      while i < SetCount(denseCount)
        invariant 0 <= i <= SetCount(denseCount) && Sized() && recovery == memory[temp := recovery[temp]]
        invariant Within(deck[..i], denseCount)
        invariant combo.At? ==> combo.cell < |recovery|
        invariant SumOf(deck[..i], src) == if combo.Unused? then ZERO else recovery[combo.cell]
      {
        var c := column + deck[i];
        SourceAtMemory(column, deck[i], memory);
        assert deck[..i + 1] == deck[..i] + [deck[i]];
        SumNext(deck, i, src);
        AddZero(SumOf(deck[..i], src));
        AddZero(src[deck[i]]);
        if IsPeeled(c) {
          if combo.Unused? {
            combo := At(c);
          } else {
            recovery := recovery[temp := Add(recovery[combo.cell], recovery[c])];
            combo := At(temp);
          }
        }
        i := i + 1;
      }
      any := combo.At?;
      if !any {
        recovery := recovery[temp := ZERO];
      } else if combo != At(temp) {
        recovery := recovery[temp := recovery[combo.cell]];
      }
    }

    lemma FixedBounds()
      requires Fixed() && Sized()
      ensures n == |columnMarks| && denseCount > 0
    {}

    lemma SourceAtMemory(column: nat, b: nat, memory: Vec)
      requires Fixed() && Sized() && b < denseCount && |memory| == |recovery|
      requires recovery == memory[n + system.Mix() := recovery[n + system.Mix()]]
      ensures Slice(PeeledOnly(columnMarks, memory), column, denseCount)[b] == if IsPeeled(column + b) then
        recovery[column + b] else ZERO
      ensures IsPeeled(column + b) ==> column + b < n
    {}

    /** Add the two columns that change, if peeled, to the temporary cell. */
    method AddTwo(column: nat, b0: nat, b1: nat)
      requires Fixed() && Sized() && b0 < denseCount && b1 < denseCount
      modifies this
      ensures Sized()
      ensures var temp := n + system.Mix(); recovery == old(recovery)[temp :=
        Add(Add(old(recovery)[temp], old(Sources(column))[b0]), old(Sources(column))[b1])]
    {
      hide Add;
      var temp := n + system.Mix();
      SourceAt(column, b0);
      SourceAt(column, b1);
      hide Fixed, Sources;
      FixedBounds();
      var t := recovery[temp];
      AddZero(t);
      if IsPeeled(column + b0) {
        AddZero(Add(t, recovery[column + b0]));
        if IsPeeled(column + b1) {
          AddAssoc(t, recovery[column + b0], recovery[column + b1]);
          recovery := recovery[temp := Add(t, Add(recovery[column + b0], recovery[column + b1]))];
        } else {
          recovery := recovery[temp := Add(t, recovery[column + b0])];
        }
      } else if IsPeeled(column + b1) {
        recovery := recovery[temp := Add(t, recovery[column + b1])];
      }
    }

    /** What changes leaves the peeled columns alone. */
    ghost predicate PeeledKept(memory: Vec)
      requires Fixed() && Sized() && |memory| == |recovery|
      reads this
    {
      PeeledOnly(columnMarks, recovery) == PeeledOnly(columnMarks, memory)
    }

    /** The temporary cell goes to the chosen row at place t of the window. */
    method AddToTarget(row: nat, ghost w: Window, ghost t: nat, ghost src: Vec, ghost memory0: Vec)
      requires Fixed() && Sized() && WindowOk(w, denseCount) && |src| == denseCount && t < denseCount
        && row == w.rows[t]
      requires ValuesSummed(memory0, recovery, w, denseCount, src, dest, n + system.Mix(), t)
      requires Within(Pattern(w, denseCount, t), denseCount)
        && recovery[n + system.Mix()] == SumOf(Pattern(w, denseCount, t), src)
      modifies this
      ensures Sized() && PeeledKept(old(recovery))
      ensures ValuesSummed(memory0, recovery, w, denseCount, src, dest, n + system.Mix(), t + 1)
      ensures recovery[n + system.Mix()] == old(recovery)[n + system.Mix()]
    {
      hide Add, SumOf, Pattern, ValuesSummed, Permutes;
      RowIn(w, denseCount, t);
      var temp := n + system.Mix();
      ghost var memory := recovery;
      var c := dest[row];
      if c != LIST_TERM {
        recovery := recovery[c := Add(recovery[c], recovery[temp])];
      }
      ValuesSummedNext(memory0, memory, recovery, w, denseCount, src, dest, temp, t);
    }

    lemma RowIn(w: Window, d: nat, t: nat)
      requires WindowOk(w, d) && t < d
      ensures w.rows[t] < d
    {}

    /** Rows from .. from + count of a window. */
    method NextRows(ghost w: Window, rowDeck: seq<nat>, deck: seq<nat>, column: nat, from: nat, count: nat,
      ghost memory0: Vec)
      requires Fixed() && Sized() && WindowOk(w, denseCount) && rowDeck == w.rows && 0 < from
        && from + count <= denseCount
      requires Flipping(w, denseCount, deck, from, count)
      requires ValuesSummed(memory0, recovery, w, denseCount, Sources(column), dest, n + system.Mix(), from)
      requires Within(Pattern(w, denseCount, from - 1), denseCount)
      requires recovery[n + system.Mix()] == SumOf(Pattern(w, denseCount, from - 1), Sources(column))
      modifies this
      ensures Sized() && PeeledKept(old(recovery))
      ensures ValuesSummed(memory0, recovery, w, denseCount, Sources(column), dest, n + system.Mix(), from + count)
      ensures from + count > 0 && Within(Pattern(w, denseCount, from + count - 1), denseCount)
      ensures recovery[n + system.Mix()] == SumOf(Pattern(w, denseCount, from + count - 1), Sources(column))
    {
      hide Fixed, SumOf, Add, ValuesSummed, Permutes, Flips, Pattern;
      ghost var src, temp := Sources(column), n + system.Mix();
      var i := 0;
      while i < count
        invariant 0 <= i <= count && Sized() && PeeledKept(old(recovery)) && Sources(column) == src
        invariant ValuesSummed(memory0, recovery, w, denseCount, src, dest, temp, from + i)
        invariant Within(Pattern(w, denseCount, from + i - 1), denseCount)
        invariant recovery[temp] == SumOf(Pattern(w, denseCount, from + i - 1), src)
      {
        PatternSumNext(w, denseCount, from + i, src);
        ghost var flips := Flips(w, denseCount, from + i);
        var bit0 := deck[i];
        var bit1 := deck[SetCount(denseCount) + i];
        assert flips == (bit0, bit1);
        ghost var memory := recovery;
        AddTwo(column, bit0, bit1);
        ValuesTemp(memory0, memory, w, denseCount, src, dest, temp, from + i, recovery[temp]);
        TempOnly(memory);
        AddToTarget(rowDeck[from + i], w, from + i, src, memory0);
        i := i + 1;
      }
    }

    lemma TempOnly(memory: Vec)
      requires Fixed() && Sized() && |memory| == |recovery|
      requires recovery == memory[n + system.Mix() := recovery[n + system.Mix()]]
      ensures PeeledKept(memory)
    {}

    method Deal(at: nat, cards: array<nat>) returns (deck: seq<nat>, end: nat)
      requires 1 <= denseCount <= MAX_DENSE_ROWS == cards.Length
      modifies cards
      ensures deck == Deck(stream, at, denseCount) && end == DeckEnd(stream, at, denseCount)
    {
      hide Deck, DeckEnd;
      end := ShuffleDeck16(stream, at, cards, denseCount);
      deck := cards[..denseCount];
    }

    /** One window, with the decks that the matrix was multiplied by. */
    method DenseWindow(cards: array<nat>, at: nat, column: nat) returns (end: nat)
      requires Fixed() && Sized() && denseCount <= MAX_DENSE_ROWS == cards.Length
      modifies this, cards
      ensures Sized() && PeeledKept(old(recovery))
      ensures WindowOk(WindowAt(stream, at, denseCount), denseCount) && end == WindowEnd(stream, at, denseCount)
      ensures ValuesSummed(old(recovery), recovery, WindowAt(stream, at, denseCount), denseCount, old(Sources(column)),
        dest, n + system.Mix(), denseCount)
    {
      hide ValuesSummed, Permutes, Deck, DeckEnd, Flipping, Pattern, SumOf, Add;
      var d := denseCount;
      ghost var w, temp := WindowAt(stream, at, d), n + system.Mix();
      WindowsOk(stream, at, d);
      ghost var src, memory0 := Sources(column), recovery;
      FlippingHalves(w, d);
      PatternFirst(w, d);
      var rows, bits;
      rows, end := Deal(at, cards);
      bits, end := Deal(end, cards);
      var any := FirstSum(bits, column);
      TempOnly(memory0);
      FirstRow(w, src, memory0, rows, any);
      bits, end := Deal(end, cards);
      NextRows(w, rows, bits, column, 1, d / 2, memory0);
      bits, end := Deal(end, cards);
      NextRows(w, rows, bits, column, 1 + d / 2, SecondCount(d), memory0);
    }

    /** The first row of the window, which is not added when nothing was summed. */
    method FirstRow(ghost w: Window, ghost src: Vec, ghost memory0: Vec, rows: seq<nat>, any: bool)
      requires Fixed() && Sized() && WindowOk(w, denseCount) && rows == w.rows && |src| == denseCount
      requires |memory0| == |recovery| && recovery == memory0[n + system.Mix() := recovery[n + system.Mix()]]
      requires Within(Pattern(w, denseCount, 0), denseCount)
      requires recovery[n + system.Mix()] == SumOf(Pattern(w, denseCount, 0), src)
      requires !any ==> recovery[n + system.Mix()] == ZERO
      modifies this
      ensures Sized() && PeeledKept(old(recovery))
      ensures ValuesSummed(memory0, recovery, w, denseCount, src, dest, n + system.Mix(), 1)
      ensures recovery[n + system.Mix()] == old(recovery)[n + system.Mix()]
    {
      hide ValuesSummed, Permutes, Pattern, SumOf, Add;
      ghost var temp, memory := n + system.Mix(), recovery;
      ValuesSummedNone(memory0, w, denseCount, src, dest, temp);
      ValuesTemp(memory0, memory0, w, denseCount, src, dest, temp, 0, recovery[temp]);
      RowIn(w, denseCount, 0);
      if any {
        AddToTarget(rows[0], w, 0, src, memory0);
      } else {
        var c := dest[rows[0]];
        if c != LIST_TERM { AddZero(recovery[c]); }
        ValuesSummedNext(memory0, memory, recovery, w, denseCount, src, dest, temp, 0);
      }
    }

    /** The values in the target cells after k windows. */
    ghost predicate Summed(memory0: Vec, k: nat)
      requires Fixed() && Sized() && |memory0| == |recovery|
      reads this
    {
      && PeeledKept(memory0)
      && (forall r :: 0 <= r < denseCount && dest[r] != LIST_TERM ==>
            recovery[dest[r]] == Add(memory0[dest[r]], DenseSum(stream, denseCount, k, r,
              PeeledOnly(columnMarks, memory0))))
      && (forall x :: 0 <= x < |recovery| && x != n + system.Mix() && x !in dest[..denseCount] ==>
        recovery[x] == memory0[x])
    }

    lemma SummedNext(memory0: Vec, memory: Vec, k: nat)
      requires Fixed() && Sized() && |memory0| == |memory| == |recovery|
      requires PeeledOnly(columnMarks, memory) == PeeledOnly(columnMarks, memory0) && PeeledKept(memory)
      requires forall r :: 0 <= r < denseCount && dest[r] != LIST_TERM ==>
        memory[dest[r]] == Add(memory0[dest[r]], DenseSum(stream, denseCount, k, r, PeeledOnly(columnMarks, memory0)))
      requires forall x :: 0 <= x < |memory| && x != n + system.Mix() && x !in dest[..denseCount] ==>
        memory[x] == memory0[x]
      requires var at := WindowStart(stream, k, denseCount); var column := StartColumn(k, denseCount);
        var w := WindowAt(stream, at, denseCount);
        WindowOk(w, denseCount) && ValuesSummed(memory, recovery, w, denseCount,
          Slice(PeeledOnly(columnMarks, memory), column, denseCount), dest, n + system.Mix(), denseCount)
      ensures Summed(memory0, k + 1)
    {
      hide Add, SumOf, Pattern, Permutes, WindowAt, Slice, PeeledOnly;
      var temps := PeeledOnly(columnMarks, memory0);
      var w := WindowAt(stream, WindowStart(stream, k, denseCount), denseCount);
      forall r | 0 <= r < denseCount && dest[r] != LIST_TERM
        ensures recovery[dest[r]] == Add(memory0[dest[r]], DenseSum(stream, denseCount, k + 1, r, temps))
      {
        PermutesHas(w.rows, r);
        AddAssoc(memory0[dest[r]], DenseSum(stream, denseCount, k, r, temps),
          WindowSum(stream, denseCount, k, r, temps));
      }
    }

    /** All windows, from left to right, with the decks of the same stream as the matrix. */
    method MultiplyDenseValues()
      requires Fixed() && Sized() && denseCount <= MAX_DENSE_ROWS
      modifies this
      ensures Sized() && Summed(old(recovery), WindowCount(n, denseCount))
    {
      hide Fixed, Add, WindowAt, WindowEnd, Sources, PeeledKept, Summed;
      FixedBounds();
      ghost var memory0 := recovery;
      SummedNone();
      var cards := new nat[MAX_DENSE_ROWS];
      var column, at := 0, 0;
      ghost var k := 0;
      while column < n
        invariant Sized() && Summed(memory0, k)
        invariant column == StartColumn(k, denseCount) && at == WindowStart(stream, k, denseCount)
        invariant LastWindow(n, denseCount, k) == WindowCount(n, denseCount)
        decreases n - column
      {
        ghost var memory, at0 := recovery, at;
        SummedParts(memory0, k);
        at := DenseWindow(cards, at, column);
        SummedNext(memory0, memory, k);
        column := column + denseCount;
        k := k + 1;
      }
    }

    lemma SummedNone()
      requires Fixed() && Sized()
      ensures Summed(recovery, 0)
    {
      hide Add;
      forall r | 0 <= r < denseCount && dest[r] != LIST_TERM ensures Add(recovery[dest[r]], ZERO) == recovery[dest[r]] {
        AddZero(recovery[dest[r]]);
      }
    }

    lemma SummedParts(memory0: Vec, k: nat)
      requires Fixed() && Sized() && |memory0| == |recovery| && Summed(memory0, k)
      ensures PeeledOnly(columnMarks, recovery) == PeeledOnly(columnMarks, memory0)
      ensures Sources(StartColumn(k, denseCount)) == Slice(PeeledOnly(columnMarks, recovery),
        StartColumn(k, denseCount), denseCount)
      ensures forall r :: 0 <= r < denseCount && dest[r] != LIST_TERM ==>
        recovery[dest[r]] == Add(memory0[dest[r]], DenseSum(stream, denseCount, k, r, PeeledOnly(columnMarks, memory0)))
      ensures forall x :: 0 <= x < |recovery| && x != n + system.Mix() && x !in dest[..denseCount] ==>
        recovery[x] == memory0[x]
    {}
  }

  lemma PatternSumNext(w: Window, d: nat, t: nat, src: Vec)
    requires WindowOk(w, d) && 0 < t < d && |src| == d && Within(Pattern(w, d, t - 1), d)
    ensures Within(Pattern(w, d, t), d) && Flips(w, d, t).0 < d && Flips(w, d, t).1 < d
    ensures SumOf(Pattern(w, d, t), src)
      == Add(Add(SumOf(Pattern(w, d, t - 1), src), src[Flips(w, d, t).0]), src[Flips(w, d, t).1])
  {
    hide Add, Flips;
    FlipsDiffer(w, d, t);
    PatternWithin(w, d, t);
    var f, list, longer := Flips(w, d, t), Pattern(w, d, t - 1), Pattern(w, d, t);
    assert longer == list + [f.0] + [f.1];
    SumNext(longer, |list|, src);
    SumNext(longer, |list| + 1, src);
    assert longer[..|list|] == list && longer[..|list| + 2] == longer;
  }

  lemma SumNone(deck: seq<nat>, src: Vec)
    ensures SumOf(deck[..0], src) == ZERO
  {}
}

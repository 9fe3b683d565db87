/** The dense rows: windows of as many columns as there are dense rows, in each of which shuffled
    decks say which rows receive the running sum and which two columns change it from row to row. */
module Dense {
  import opened Finite
  import opened GF256
  import opened Linear
  import opened Elimination
  import opened Rows
  import opened Shuffle
  import opened Sums

  /** The four decks of one window: the rows, the columns of the first sum, and the columns that
      change it in the first and second half. */
  datatype Window = Window(rows: seq<nat>, first: seq<nat>, second: seq<nat>, third: seq<nat>)

  function SetCount(d: nat): nat { (d + 1) / 2 }

  function WindowAt(stream: Stream, at: nat, d: nat): (w: Window)
    requires d > 0
    ensures |w.rows| == |w.first| == |w.second| == |w.third| == d
  {
    var a := DeckEnd(stream, at, d);
    var b := DeckEnd(stream, a, d);
    var c := DeckEnd(stream, b, d);
    Window(Deck(stream, at, d), Deck(stream, a, d), Deck(stream, b, d), Deck(stream, c, d))
  }

  function WindowEnd(stream: Stream, at: nat, d: nat): nat
    requires d > 0
  {
    DeckEnd(stream, DeckEnd(stream, DeckEnd(stream, DeckEnd(stream, at, d), d), d), d)
  }

  /** Where in the stream window number k starts. */
  function WindowStart(stream: Stream, k: nat, d: nat): nat
    requires d > 0
  {
    if k == 0 then 0 else WindowEnd(stream, WindowStart(stream, k - 1, d), d)
  }

  ghost predicate WindowOk(w: Window, d: nat) {
    && d > 0 && |w.rows| == |w.first| == |w.second| == |w.third| == d
    && Permutes(w.rows) && Permutes(w.first) && Permutes(w.second) && Permutes(w.third)
  }

  lemma WindowsOk(stream: Stream, at: nat, d: nat)
    requires d > 0
    ensures WindowOk(WindowAt(stream, at, d), d)
  {
    hide Deck, Permutes, Cycles;
    var a := DeckEnd(stream, at, d);
    var b := DeckEnd(stream, a, d);
    var c := DeckEnd(stream, b, d);
    var x := DeckShuffles(stream, at, d);
    x := DeckShuffles(stream, a, d);
    x := DeckShuffles(stream, b, d);
    x := DeckShuffles(stream, c, d);
  }

  /** The two columns in which row t of a window, t > 0, differs from the row before. */
  function Flips(w: Window, d: nat, t: nat): (r: (nat, nat))
    requires 0 < t < d && |w.second| == |w.third| == d
  {
    var k, deck := if t <= d / 2 then t - 1 else t - 1 - d / 2, if t <= d / 2 then w.second else w.third;
    (deck[k], deck[SetCount(d) + k])
  }

  /** The columns summed for row t, in the order they are added; one added twice cancels. */
  function Pattern(w: Window, d: nat, t: nat): (r: seq<nat>)
    requires t < d && |w.first| == |w.second| == |w.third| == d
  {
    if t == 0 then w.first[..SetCount(d)]
    else Pattern(w, d, t - 1) + [Flips(w, d, t).0, Flips(w, d, t).1]
  }

  lemma FlipsDiffer(w: Window, d: nat, t: nat)
    requires WindowOk(w, d) && 0 < t < d
    ensures Flips(w, d, t).0 != Flips(w, d, t).1 && Flips(w, d, t).0 < d && Flips(w, d, t).1 < d
  {
    var k, deck := if t <= d / 2 then t - 1 else t - 1 - d / 2, if t <= d / 2 then w.second else w.third;
    assert deck[k] < d && deck[SetCount(d) + k] < d && deck[k] != deck[SetCount(d) + k];
  }

  lemma {:induction false} PatternWithin(w: Window, d: nat, t: nat)
    requires WindowOk(w, d) && t < d
    ensures Within(Pattern(w, d, t), d)
  {
    if t > 0 {
      PatternWithin(w, d, t - 1);
      FlipsDiffer(w, d, t);
    } else {
      assert forall k :: 0 <= k < SetCount(d) ==> w.first[k] < d;
    }
  }

  // ---------- Patterns as bits ----------

  predicate InPattern(list: seq<nat>, c: nat) {
    if list == [] then false
    else InPattern(list[..|list| - 1], c) != (list[|list| - 1] == c)
  }

  lemma {:induction false} InPatternAt(list: seq<nat>, c: nat)
    requires NoRepeat(list)
    ensures InPattern(list, c) <==> c in list
  {
    if list != [] {
      InPatternAt(list[..|list| - 1], c);
    }
  }

  /** The first row of a window has the first half of a deck, and every other row differs from the
      row before it in exactly two columns. */
  lemma PatternFlips(w: Window, d: nat, t: nat, c: nat)
    requires WindowOk(w, d) && t < d
    ensures t == 0 ==> (InPattern(Pattern(w, d, t), c) <==> c in w.first[..SetCount(d)])
    ensures t > 0 ==>
      (InPattern(Pattern(w, d, t), c) != InPattern(Pattern(w, d, t - 1), c)
       <==> c == Flips(w, d, t).0 || c == Flips(w, d, t).1)
  {
    if t == 0 {
      InPatternAt(w.first[..SetCount(d)], c);
    } else {
      FlipsDiffer(w, d, t);
      var list := Pattern(w, d, t);
      var f := Flips(w, d, t);
      assert list[..|list| - 1] == Pattern(w, d, t - 1) + [f.0];
      assert list[..|list| - 1][..|list| - 2] == Pattern(w, d, t - 1);
    }
  }

  /** The columns of row t of a window. */
  ghost function Chosen(w: Window, d: nat, t: nat): (r: set<nat>)
    requires t < d && |w.first| == |w.second| == |w.third| == d
  {
    set c: nat | c < d && InPattern(Pattern(w, d, t), c)
  }

  /** Those in which it differs from the row before. */
  ghost function Changed(w: Window, d: nat, t: nat): (r: set<nat>)
    requires 0 < t < d && |w.first| == |w.second| == |w.third| == d
  {
    (Chosen(w, d, t) - Chosen(w, d, t - 1)) + (Chosen(w, d, t - 1) - Chosen(w, d, t))
  }

  /** The first row has half of the columns, rounded up. */
  lemma FirstHalf(w: Window, d: nat)
    requires WindowOk(w, d)
    ensures |Chosen(w, d, 0)| == (d + 1) / 2
  {
    var half := w.first[..(d + 1) / 2];
    forall c | 0 <= c < d ensures c in Chosen(w, d, 0) <==> c in half { PatternFlips(w, d, 0, c); }
    forall c | c in half ensures c < d {
      var k :| 0 <= k < |half| && half[k] == c;
      assert w.first[k] == c;
    }
    assert Chosen(w, d, 0) == Elements(half);
    ElementsSize(half);
  }

  lemma ChangedIs(w: Window, d: nat, t: nat)
    requires WindowOk(w, d) && 0 < t < d
    ensures Changed(w, d, t) == {Flips(w, d, t).0, Flips(w, d, t).1} && |Changed(w, d, t)| == 2
  {
    hide Pattern, Flips;
    FlipsDiffer(w, d, t);
    forall c | 0 <= c < d ensures c in Changed(w, d, t) <==> c == Flips(w, d, t).0 || c == Flips(w, d, t).1 {
      PatternFlips(w, d, t, c);
    }
  }

  /** Rows s and t are in the same half of the rows behind the first. */
  predicate SameHalf(d: nat, s: nat, t: nat) {
    (s <= d / 2) == (t <= d / 2)
  }

  /** Every later row changes two columns, and within a half no column is changed twice. */
  lemma ChangesDisjoint(w: Window, d: nat, s: nat, t: nat)
    requires WindowOk(w, d) && 0 < s < t < d && SameHalf(d, s, t)
    ensures |Changed(w, d, s)| == |Changed(w, d, t)| == 2 && Changed(w, d, s) !! Changed(w, d, t)
  {
    ChangedIs(w, d, s);
    ChangedIs(w, d, t);
  }

  lemma WithCard(deck: seq<nat>, k: nat, a: nat) returns (deck': seq<nat>, p: nat)
    requires Permutes(deck) && k < |deck| && a < |deck|
    ensures Permutes(deck') && |deck'| == |deck| && p < |deck| && deck[p] == a && deck' == deck[p := deck[k]][k := a]
  {
    p := PermutesOnto(deck, a);
    deck' := deck[p := deck[k]][k := a];
  }

  /** Any two columns can be those in which a row differs, and which deck decides it: the second or the third. */
  lemma AnyChange(w: Window, d: nat, t: nat, a: nat, b: nat) returns (w': Window)
    requires WindowOk(w, d) && 0 < t < d && a < d && b < d && a != b
    ensures WindowOk(w', d) && Changed(w', d, t) == {a, b}
    ensures if t <= d / 2 then w' == w.(second := w'.second) else w' == w.(third := w'.third)
  {
    var k, deck := if t <= d / 2 then t - 1 else t - 1 - d / 2, if t <= d / 2 then w.second else w.third;
    var one, p := WithCard(deck, k, a);
    var two, q := WithCard(one, (d + 1) / 2 + k, b);
    w' := if t <= d / 2 then w.(second := two) else w.(third := two);
    ChangedIs(w', d, t);
  }

  // ---------- Which windows are drawn ----------

  ghost predicate OneCycle(deck: seq<nat>) {
    Permutes(deck) && exists cycle :: Cycles(deck, cycle)
  }

  ghost predicate CanDraw(w: Window, d: nat) {
    WindowOk(w, d) && OneCycle(w.rows) && OneCycle(w.first) && OneCycle(w.second) && OneCycle(w.third)
  }

  /** Every window drawn has four decks of one cycle each. */
  lemma WindowDrawn(stream: Stream, k: nat, d: nat)
    requires d > 0
    ensures CanDraw(WindowAt(stream, WindowStart(stream, k, d), d), d)
  {
    hide Deck, Permutes, Cycles;
    var at := WindowStart(stream, k, d);
    var a := DeckEnd(stream, at, d);
    var b := DeckEnd(stream, a, d);
    var c := DeckEnd(stream, b, d);
    var x := DeckShuffles(stream, at, d);
    x := DeckShuffles(stream, a, d);
    x := DeckShuffles(stream, b, d);
    x := DeckShuffles(stream, c, d);
  }

  lemma SaysParts(stream: Stream, at: nat, u: seq<nat>, v: seq<nat>)
    ensures Says(stream, at, u + v) <==> Says(stream, at, u) && Says(stream, at + |u|, v)
  {
    if Says(stream, at, u + v) {
      forall k: nat | k < |u| ensures stream(at + k) == u[k] { assert (u + v)[k] == u[k]; }
      forall k: nat | k < |v| ensures stream(at + |u| + k) == v[k] {
        assert stream(at + (|u| + k)) == (u + v)[|u| + k];
      }
    }
    if Says(stream, at, u) && Says(stream, at + |u|, v) {
      forall k: nat | k < |u + v| ensures stream(at + k) == (u + v)[k] {
        if k >= |u| {
          var j: nat := k - |u|;
          assert stream(at + |u| + j) == v[j];
        }
      }
    }
  }

  lemma DeckDealt(deck: seq<nat>, d: nat, at: nat) returns (values: seq<nat>)
    requires OneCycle(deck) && |deck| == d <= 0x1_0000
    ensures d > 0 && forall stream: Stream :: Says(stream, at, values) ==>
      Deck(stream, at, d) == deck && DeckEnd(stream, at, d) == at + |values|
  {
    hide Permutes, Cycles;
    var cycle :| Cycles(deck, cycle);
    values := EveryCycle(deck, cycle, at);
  }

  /** The four decks of a window are drawn one after the other and independently. */
  lemma WindowDealt(w: Window, d: nat, at: nat) returns (values: seq<nat>)
    requires CanDraw(w, d) && d <= 0x1_0000
    ensures forall stream: Stream :: Says(stream, at, values) ==>
      WindowAt(stream, at, d) == w && WindowEnd(stream, at, d) == at + |values|
  {
    hide Permutes, OneCycle, Deck, DeckEnd, Says;
    var u := DeckDealt(w.rows, d, at);
    var v := DeckDealt(w.first, d, at + |u|);
    var x := DeckDealt(w.second, d, at + |u| + |v|);
    var y := DeckDealt(w.third, d, at + |u| + |v| + |x|);
    values := u + v + x + y;
    forall stream: Stream | Says(stream, at, values)
      ensures WindowAt(stream, at, d) == w && WindowEnd(stream, at, d) == at + |values|
    {
      SaysParts(stream, at, u + v + x, y);
      SaysParts(stream, at, u + v, x);
      SaysParts(stream, at, u, v);
      assert at + |u + v| == at + |u| + |v| && at + |u + v + x| == at + |u| + |v| + |x|;
    }
  }

  lemma {:induction false} WindowsDealt(ws: seq<Window>, d: nat) returns (values: seq<nat>)
    requires d <= 0x1_0000 && 0 < d && forall k :: 0 <= k < |ws| ==> CanDraw(ws[k], d)
    ensures forall stream: Stream :: Says(stream, 0, values) ==>
      WindowStart(stream, |ws|, d) == |values|
      && forall k: nat :: k < |ws| ==> WindowAt(stream, WindowStart(stream, k, d), d) == ws[k]
  {
    hide CanDraw, WindowAt, WindowEnd, Says;
    if ws == [] {
      values := [];
    } else {
      var m := |ws| - 1;
      var u := WindowsDealt(ws[..m], d);
      var v := WindowDealt(ws[m], d, |u|);
      values := u + v;
      forall stream: Stream | Says(stream, 0, values)
        ensures WindowStart(stream, |ws|, d) == |values|
          && forall k: nat :: k < |ws| ==> WindowAt(stream, WindowStart(stream, k, d), d) == ws[k]
      {
        SaysParts(stream, 0, u, v);
        forall k: nat | k < m ensures WindowAt(stream, WindowStart(stream, k, d), d) == ws[k] {
          assert ws[..m][k] == ws[k];
        }
      }
    }
  }

  /** And any such windows, as many as one likes, are those of some stream: no deck says anything about another. */
  lemma EveryWindow(ws: seq<Window>, d: nat) returns (stream: Stream)
    requires d <= 0x1_0000 && 0 < d && forall k :: 0 <= k < |ws| ==> CanDraw(ws[k], d)
    ensures forall k: nat :: k < |ws| ==> WindowAt(stream, WindowStart(stream, k, d), d) == ws[k]
  {
    hide CanDraw, WindowAt, WindowEnd;
    var values := WindowsDealt(ws, d);
    stream := (k: nat) => if k < |values| then values[k] else 0;
    assert Says(stream, 0, values);
  }

  // ---------- Sums of rows of bits ----------

  function XorSum(list: seq<nat>, src: seq<Bits>, n: nat): (r: Bits)
    requires forall k :: 0 <= k < |list| ==> list[k] < |src|
    requires forall c :: 0 <= c < |src| ==> |src[c]| == n
    ensures |r| == n
  {
    if list == [] then NoBits(n) else XorBits(XorSum(list[..|list| - 1], src, n), src[list[|list| - 1]])
  }

  ghost function Dots(src: seq<Bits>, y: Vec): (v: Vec)
    requires forall c :: 0 <= c < |src| ==> |src[c]| == |y|
    ensures |v| == |src|
  {
    seq(|src|, c requires 0 <= c < |src| => BitDot(src[c], y))
  }

  lemma {:induction false} XorSumDot(list: seq<nat>, src: seq<Bits>, y: Vec)
    requires Within(list, |src|)
    requires forall c :: 0 <= c < |src| ==> |src[c]| == |y|
    ensures BitDot(XorSum(list, src, |y|), y) == SumOf(list, Dots(src, y))
  {
    hide Add, BitDot;
    if list == [] {
      BitDotNone(|y|, y);
    } else {
      XorSumDot(list[..|list| - 1], src, y);
      BitDotXor(XorSum(list[..|list| - 1], src, |y|), src[list[|list| - 1]], y);
    }
  }

  /** The first column of window number k. */
  function StartColumn(k: nat, d: nat): nat {
    if k == 0 then 0 else StartColumn(k - 1, d) + d
  }

  /** The number of windows, counted from window k on, that it takes to cover n columns. */
  function LastWindow(n: nat, d: nat, k: nat): nat
    requires d > 0
    decreases n - StartColumn(k, d)
  {
    if StartColumn(k, d) >= n then k else LastWindow(n, d, k + 1)
  }

  function WindowCount(n: nat, d: nat): nat
    requires d > 0
  {
    LastWindow(n, d, 0)
  }

  lemma {:induction false} StartLater(j: nat, k: nat, d: nat)
    requires j < k
    ensures StartColumn(j, d) + d <= StartColumn(k, d)
  {
    if j < k - 1 {
      StartLater(j, k - 1, d);
    }
  }

  lemma {:induction false} LastCovers(n: nat, d: nat, k: nat)
    requires d > 0 && (k == 0 || StartColumn(k - 1, d) < n)
    ensures var last := LastWindow(n, d, k);
      StartColumn(last, d) >= n && (last == 0 || StartColumn(last - 1, d) < n)
    decreases n - StartColumn(k, d)
  {
    if StartColumn(k, d) < n {
      LastCovers(n, d, k + 1);
    }
  }

  lemma {:induction false} WindowFrom(c: nat, d: nat, j: nat) returns (k: nat)
    requires d > 0 && StartColumn(j, d) <= c
    ensures StartColumn(k, d) <= c < StartColumn(k, d) + d
    decreases c - StartColumn(j, d)
  {
    if c < StartColumn(j, d) + d {
      k := j;
    } else {
      k := WindowFrom(c, d, j + 1);
    }
  }

  /** The windows cover the columns: each column is in exactly one of them, and the last one has a column too. */
  lemma WindowsCover(n: nat, d: nat, c: nat) returns (k: nat)
    requires d > 0 && c < n
    ensures k < WindowCount(n, d) && StartColumn(k, d) <= c < StartColumn(k, d) + d
    ensures forall j: nat :: StartColumn(j, d) <= c < StartColumn(j, d) + d ==> j == k
    ensures StartColumn(WindowCount(n, d) - 1, d) < n
  {
    k := WindowFrom(c, d, 0);
    LastCovers(n, d, 0);
    if WindowCount(n, d) < k { StartLater(WindowCount(n, d), k, d); }
    forall j: nat | StartColumn(j, d) <= c < StartColumn(j, d) + d ensures j == k {
      if j < k { StartLater(j, k, d); }
      if k < j { StartLater(k, j, d); }
    }
  }

  /** The d values from a column on, zero beyond the end. */
  function Slice(v: Vec, column: nat, d: nat): (r: Vec)
    ensures |r| == d
  {
    seq(d, b requires 0 <= b < d => if column + b < |v| then v[column + b] else ZERO)
  }

  function Find(list: seq<nat>, v: nat): (t: nat)
    ensures t <= |list| && (t < |list| ==> list[t] == v)
    ensures v in list ==> t < |list|
  {
    if list == [] then 0 else if list[0] == v then 0 else 1 + Find(list[1..], v)
  }

  lemma FindAt(list: seq<nat>, t: nat)
    requires NoRepeat(list) && t < |list|
    ensures Find(list, list[t]) == t
  {
    assert list[t] in list;
  }

  /** The part of dense row r in window k, applied to v. */
  ghost function WindowSum(stream: Stream, d: nat, k: nat, r: nat, v: Vec): Byte
    requires r < d
  {
    var at := WindowStart(stream, k, d);
    var w := WindowAt(stream, at, d);
    WindowsOk(stream, at, d);
    var t := Find(w.rows, r);
    PermutesHas(w.rows, r);
    PatternWithin(w, d, t);
    SumOf(Pattern(w, d, t), Slice(v, StartColumn(k, d), d))
  }

  /** The first k windows of dense row r, applied to v. */
  ghost function DenseSum(stream: Stream, d: nat, k: nat, r: nat, v: Vec): Byte
    requires r < d
  {
    if k == 0 then ZERO else Add(DenseSum(stream, d, k - 1, r, v), WindowSum(stream, d, k - 1, r, v))
  }

  // ---------- One window over rows of bits ----------

  /** Rows of ge whose place in the window is before t have the sum of their columns added. */
  ghost predicate RowsSummed(ge0: seq<Bits>, ge: seq<Bits>, w: Window, d: nat, src: seq<Bits>, n: nat, t: nat)
    requires WindowOk(w, d) && |src| == d && forall c :: 0 <= c < d ==> |src[c]| == n
  {
    && |ge| == |ge0| >= d && (forall r :: 0 <= r < |ge0| ==> |ge0[r]| == n)
    && (forall r :: 0 <= r < |ge| ==> ge[r] == if r < d && Find(w.rows, r) < t then RowSummed(ge0[r], w, d, src, n, r)
      else ge0[r])
  }

  ghost function RowSummed(row: Bits, w: Window, d: nat, src: seq<Bits>, n: nat, r: nat): (s: Bits)
    requires WindowOk(w, d) && |src| == d && forall c :: 0 <= c < d ==> |src[c]| == n
    requires r < d && |row| == n
    ensures |s| == n
  {
    PermutesHas(w.rows, r);
    PatternWithin(w, d, Find(w.rows, r));
    XorBits(row, XorSum(Pattern(w, d, Find(w.rows, r)), src, n))
  }

  lemma RowSummedDot(row: Bits, w: Window, d: nat, src: seq<Bits>, r: nat, y: Vec)
    requires WindowOk(w, d) && |src| == d && forall c :: 0 <= c < d ==> |src[c]| == |y|
    requires r < d && |row| == |y|
    ensures Find(w.rows, r) < d && Within(Pattern(w, d, Find(w.rows, r)), d)
    ensures BitDot(RowSummed(row, w, d, src, |y|, r), y) ==
      Add(BitDot(row, y), SumOf(Pattern(w, d, Find(w.rows, r)), Dots(src, y)))
  {
    hide Add, BitDot, XorBits, XorSum, Pattern, Permutes;
    PermutesHas(w.rows, r);
    var t := Find(w.rows, r);
    PatternWithin(w, d, t);
    XorSumDot(Pattern(w, d, t), src, y);
    BitDotXor(row, XorSum(Pattern(w, d, t), src, |y|), y);
  }

  lemma RowsSummedNone(ge: seq<Bits>, w: Window, d: nat, src: seq<Bits>, n: nat)
    requires WindowOk(w, d) && |src| == d && forall c :: 0 <= c < d ==> |src[c]| == n
    requires |ge| >= d && forall r :: 0 <= r < |ge| ==> |ge[r]| == n
    ensures RowsSummed(ge, ge, w, d, src, n, 0)
  {}

  lemma RowsSummedNext(ge0: seq<Bits>, ge: seq<Bits>, w: Window, d: nat, src: seq<Bits>, n: nat, t: nat, sum: Bits)
    requires WindowOk(w, d) && |src| == d && forall c :: 0 <= c < d ==> |src[c]| == n
    requires RowsSummed(ge0, ge, w, d, src, n, t) && t < d
    requires Within(Pattern(w, d, t), d) && sum == XorSum(Pattern(w, d, t), src, n)
    ensures w.rows[t] < |ge| && |ge[w.rows[t]]| == n
    ensures RowsSummed(ge0, ge[w.rows[t] := XorBits(ge[w.rows[t]], sum)], w, d, src, n, t + 1)
  {
    hide XorSum, XorBits, Pattern;
    var q := w.rows[t];
    FindAt(w.rows, t);
    var ge' := ge[q := XorBits(ge[q], sum)];
    forall r | 0 <= r < |ge'| && r != q
      ensures ge'[r] == if r < d && Find(w.rows, r) < t + 1 then RowSummed(ge0[r], w, d, src, n, r) else ge0[r]
    {
      if r < d { PermutesHas(w.rows, r); }
    }
  }

  lemma XorSumNext(list: seq<nat>, c: nat, src: seq<Bits>, n: nat)
    requires forall k :: 0 <= k < |list| ==> list[k] < |src|
    requires c < |src| && forall c :: 0 <= c < |src| ==> |src[c]| == n
    ensures XorSum(list + [c], src, n) == XorBits(XorSum(list, src, n), src[c])
  {
    assert (list + [c])[..|list|] == list;
  }

  // ---------- Sums over all windows ----------

  lemma SliceAdd(u: Vec, v: Vec, column: nat, d: nat)
    requires |u| == |v|
    ensures Slice(AddVec(u, v), column, d) == AddVec(Slice(u, column, d), Slice(v, column, d))
  {
    hide Add;
    AddZero(ZERO);
  }

  lemma WindowSumAdd(stream: Stream, d: nat, k: nat, r: nat, u: Vec, v: Vec)
    requires r < d && |u| == |v|
    ensures WindowSum(stream, d, k, r, AddVec(u, v)) == Add(WindowSum(stream, d, k, r, u),
      WindowSum(stream, d, k, r, v))
  {
    hide Add, Pattern, Deck, Permutes, SumOf;
    var at := WindowStart(stream, k, d);
    var w := WindowAt(stream, at, d);
    WindowsOk(stream, at, d);
    var t := Find(w.rows, r);
    PermutesHas(w.rows, r);
    PatternWithin(w, d, t);
    SliceAdd(u, v, StartColumn(k, d), d);
    SumAdd(Pattern(w, d, t), Slice(u, StartColumn(k, d), d), Slice(v, StartColumn(k, d), d));
  }

  /** A dense row applied to a sum of vectors. */
  lemma {:induction false} DenseSumAdd(stream: Stream, d: nat, k: nat, r: nat, u: Vec, v: Vec)
    requires r < d && |u| == |v|
    ensures DenseSum(stream, d, k, r, AddVec(u, v)) == Add(DenseSum(stream, d, k, r, u), DenseSum(stream, d, k, r, v))
  {
    hide Add, WindowSum;
    if k == 0 {
      AddZero(ZERO);
    } else {
      DenseSumAdd(stream, d, k - 1, r, u, v);
      WindowSumAdd(stream, d, k - 1, r, u, v);
      AddSwap(DenseSum(stream, d, k - 1, r, u), DenseSum(stream, d, k - 1, r, v),
        WindowSum(stream, d, k - 1, r, u), WindowSum(stream, d, k - 1, r, v));
    }
  }
}

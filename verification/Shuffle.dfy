/** The deck shuffle of the dense matrix: an inside-out shuffle whose swap index is always
    strictly smaller, so that the deck is a permutation with a single cycle. */
module Shuffle {
  import opened Finite
  import opened Rows

  /** The values of a seeded generator, in order. */
  type Stream = nat -> nat

  // ---------- One card ----------

  /** Card |deck| goes to place j and the card that was there to the end. */
  function Insert(deck: seq<nat>, j: nat): (r: seq<nat>)
    requires j < |deck|
    ensures |r| == |deck| + 1
  {
    deck[j := |deck|] + [deck[j]]
  }

  /** The deck holds each of 0 .. |deck| - 1 once. */
  ghost predicate Permutes(deck: seq<nat>) {
    NoRepeat(deck) && forall i :: 0 <= i < |deck| ==> deck[i] < |deck|
  }

  /** Going from i to deck[i] runs through cycle, and through nothing else. */
  ghost predicate Cycles(deck: seq<nat>, cycle: seq<nat>) {
    && |cycle| == |deck| > 0 && Permutes(cycle)
    && (forall i :: 0 <= i < |cycle| - 1 ==> cycle[i] < |deck| && deck[cycle[i]] == cycle[i + 1])
    && cycle[|cycle| - 1] < |deck| && deck[cycle[|cycle| - 1]] == cycle[0]
  }

  lemma InsertPermutes(deck: seq<nat>, j: nat)
    requires Permutes(deck) && j < |deck|
    ensures Permutes(Insert(deck, j))
  {}

  /** A cycle with card c put in behind place p. */
  function Behind(cycle: seq<nat>, p: nat, c: nat): (r: seq<nat>)
    requires p < |cycle|
    ensures |r| == |cycle| + 1
    ensures forall i :: 0 <= i < |r| ==> r[i] == if i <= p then cycle[i] else if i == p + 1 then c else cycle[i - 1]
  {
    cycle[..p + 1] + [c] + cycle[p + 1..]
  }

  /** A new card is put into the one cycle behind card j. */
  lemma InsertCycles(deck: seq<nat>, cycle: seq<nat>, j: nat, p: nat)
    requires Cycles(deck, cycle) && p < |cycle| && cycle[p] == j && j < |deck|
    ensures Cycles(Insert(deck, j), Behind(cycle, p, |deck|))
  {
    var deck', cycle' := Insert(deck, j), Behind(cycle, p, |deck|);
    BehindPermutes(cycle, p);
    forall i | 0 <= i < |cycle'| - 1 ensures deck'[cycle'[i]] == cycle'[i + 1] {
      if i < p { assert cycle[i] != j; } else if i > p + 1 { var k := i - 1; assert cycle[k] != j; }
    }
    var last := |cycle'| - 1;
    if p + 1 < |cycle| { assert cycle[|cycle| - 1] != j; }
    assert deck'[cycle'[last]] == cycle'[0];
  }

  lemma BehindPermutes(cycle: seq<nat>, p: nat)
    requires Permutes(cycle) && p < |cycle|
    ensures Permutes(Behind(cycle, p, |cycle|))
  {
    var r := Behind(cycle, p, |cycle|);
    forall i, j | 0 <= i < j < |r| ensures r[i] != r[j] {
      var x, y := if i <= p then i else i - 1, if j <= p then j else j - 1;
      if i != p + 1 && j != p + 1 { assert cycle[x] != cycle[y]; }
    }
  }

  /** Every value occurs in a permutation. */
  lemma PermutesHas(s: seq<nat>, v: nat)
    requires Permutes(s) && v < |s|
    ensures v in s
  {
    ElementsSize(s);
    RangeFull(|s|, Elements(s));
    assert v in Elements(s);
  }

  lemma PermutesOnto(s: seq<nat>, v: nat) returns (p: nat)
    requires Permutes(s) && v < |s|
    ensures p < |s| && s[p] == v
  {
    PermutesHas(s, v);
    p :| p < |s| && s[p] == v;
  }

  // ---------- The deck ----------

  /** Field number byte of a value. */
  function Field(rv: nat, byte: nat, width: nat): nat
    requires width > 0
  {
    rv / Power(width, byte) % width
  }

  function Pick(rv: nat, byte: nat, width: nat, i: nat): (j: nat)
    requires i > 0 && (width == 0x100 || width == 0x1_0000) && byte < 4
    ensures j < i
  {
    Field(rv, byte, width) % i
  }

  function Power(base: nat, e: nat): (r: nat)
    requires base > 0
    ensures r > 0
  {
    if e == 0 then 1 else base * Power(base, e - 1)
  }

  /** The deck with one more card drawn by the given field of rv. */
  function Next(deck: seq<nat>, rv: nat, byte: nat, width: nat): (r: seq<nat>)
    requires |deck| > 0 && (width == 0x100 || width == 0x1_0000) && byte < 4
    ensures |r| == |deck| + 1
  {
    Insert(deck, Pick(rv, byte, width, |deck|))
  }

  /** Up to four cards from one value: the last ones take its fields from the end backwards. */
  function Four(deck: seq<nat>, rv: nat, left: nat): (r: seq<nat>)
    requires |deck| > 0
    ensures |r| == |deck| + if left < 4 then left else 4
  {
    if left >= 4 then Next(Next(Next(Next(deck, rv, 0, 0x100), rv, 1, 0x100), rv, 2, 0x100), rv, 3, 0x100)
    else
      var a := if left == 3 then Next(deck, rv, 0, 0x100) else deck;
      var b := if left >= 2 then Next(a, rv, 1, 0x100) else a;
      if left >= 1 then Next(b, rv, 2, 0x100) else b
  }

  function Two(deck: seq<nat>, rv: nat, left: nat): (r: seq<nat>)
    requires |deck| > 0
    ensures |r| == |deck| + if left < 2 then left else 2
  {
    if left >= 2 then Next(Next(deck, rv, 0, 0x1_0000), rv, 1, 0x1_0000)
    else if left == 1 then Next(deck, rv, 0, 0x1_0000) else deck
  }

  function Group(deck: seq<nat>, rv: nat, count: nat): (r: seq<nat>)
    requires 0 < |deck| <= count
    ensures |r| == if count <= 256 then |deck| + (if count - |deck| < 4 then count - |deck| else 4)
      else |deck| + if count - |deck| < 2 then count - |deck| else 2
  {
    if count <= 256 then Four(deck, rv, count - |deck|) else Two(deck, rv, count - |deck|)
  }

  function Width(count: nat): nat { if count <= 256 then 4 else 2 }

  /** The deck completed from position at of the stream, and the position after it. */
  function Deal(stream: Stream, at: nat, deck: seq<nat>, count: nat): (r: (seq<nat>, nat))
    requires 0 < |deck| <= count
    ensures |r.0| == count
    decreases count - |deck|
  {
    var deck' := Group(deck, stream(at), count);
    if count - |deck| < Width(count) then (deck', at + 1) else Deal(stream, at + 1, deck', count)
  }

  function Deck(stream: Stream, at: nat, count: nat): (r: seq<nat>)
    requires count > 0
    ensures |r| == count
  {
    Deal(stream, at, [0], count).0
  }

  function DeckEnd(stream: Stream, at: nat, count: nat): nat
    requires count > 0
  {
    Deal(stream, at, [0], count).1
  }

  // ---------- What the deck is ----------

  lemma NextCycles(deck: seq<nat>, cycle: seq<nat>, rv: nat, byte: nat, width: nat) returns (cycle': seq<nat>)
    requires Permutes(deck) && Cycles(deck, cycle) && (width == 0x100 || width == 0x1_0000) && byte < 4
    ensures Permutes(Next(deck, rv, byte, width)) && Cycles(Next(deck, rv, byte, width), cycle')
  {
    hide Permutes, Cycles, Pick;
    CyclesPermutes(deck, cycle);
    var j := Pick(rv, byte, width, |deck|);
    var p := PermutesOnto(cycle, j);
    InsertPermutes(deck, j);
    InsertCycles(deck, cycle, j, p);
    cycle' := cycle[..p + 1] + [|deck|] + cycle[p + 1..];
  }

  lemma CyclesPermutes(deck: seq<nat>, cycle: seq<nat>)
    requires Cycles(deck, cycle)
    ensures Permutes(cycle) && |cycle| == |deck| > 0
  {}

  lemma GroupCycles(deck: seq<nat>, cycle: seq<nat>, rv: nat, count: nat) returns (cycle': seq<nat>)
    requires Permutes(deck) && Cycles(deck, cycle) && 0 < |deck| <= count
    ensures Permutes(Group(deck, rv, count)) && Cycles(Group(deck, rv, count), cycle')
  {
    hide Permutes, Cycles, Pick, Next;
    var left := count - |deck|;
    cycle' := cycle;
    if count <= 256 {
      if left >= 4 {
        cycle' := NextCycles(deck, cycle', rv, 0, 0x100);
        var a := Next(deck, rv, 0, 0x100);
        cycle' := NextCycles(a, cycle', rv, 1, 0x100);
        var b := Next(a, rv, 1, 0x100);
        cycle' := NextCycles(b, cycle', rv, 2, 0x100);
        cycle' := NextCycles(Next(b, rv, 2, 0x100), cycle', rv, 3, 0x100);
      } else {
        var a := deck;
        if left == 3 { cycle' := NextCycles(a, cycle', rv, 0, 0x100); a := Next(a, rv, 0, 0x100); }
        if left >= 2 { cycle' := NextCycles(a, cycle', rv, 1, 0x100); a := Next(a, rv, 1, 0x100); }
        if left >= 1 { cycle' := NextCycles(a, cycle', rv, 2, 0x100); }
      }
    } else if left >= 1 {
      cycle' := NextCycles(deck, cycle', rv, 0, 0x1_0000);
      if left >= 2 {
        cycle' := NextCycles(Next(deck, rv, 0, 0x1_0000), cycle', rv, 1, 0x1_0000);
      }
    }
  }

  lemma {:induction false} DealCycles(stream: Stream, at: nat, deck: seq<nat>, cycle: seq<nat>, count: nat)
    returns (cycle': seq<nat>)
    requires Permutes(deck) && Cycles(deck, cycle) && 0 < |deck| <= count
    ensures Permutes(Deal(stream, at, deck, count).0) && Cycles(Deal(stream, at, deck, count).0, cycle')
    decreases count - |deck|
  {
    hide Permutes, Cycles, Group;
    cycle' := GroupCycles(deck, cycle, stream(at), count);
    if count - |deck| >= Width(count) {
      cycle' := DealCycles(stream, at + 1, Group(deck, stream(at), count), cycle', count);
    }
  }

  /** Whatever the stream, the deck is a permutation and one cycle runs through all of it. */
  lemma DeckShuffles(stream: Stream, at: nat, count: nat) returns (cycle: seq<nat>)
    requires count > 0
    ensures Permutes(Deck(stream, at, count)) && Cycles(Deck(stream, at, count), cycle)
  {
    cycle := DealCycles(stream, at, [0], [0], count);
  }

  // ---------- Every cycle is dealt ----------

  /** A permutation of one cycle without its largest card. */
  lemma LastCard(deck: seq<nat>, cycle: seq<nat>) returns (rest: seq<nat>, cycle': seq<nat>, j: nat)
    requires Permutes(deck) && Cycles(deck, cycle) && |deck| > 1
    ensures j < |rest| && |rest| == |deck| - 1 && Insert(rest, j) == deck && Permutes(rest) && Cycles(rest, cycle')
  {
    var m := |deck| - 1;
    j := PermutesOnto(deck, m);
    var p := PermutesOnto(cycle, m);
    NotFixed(deck, cycle, p);
    rest := deck[..m][j := deck[m]];
    cycle' := cycle[..p] + cycle[p + 1..];
    assert Insert(rest, j) == deck;
    RestPermutes(deck, j);
    CycleWithout(deck, cycle, p, j);
  }

  /** In a cycle of more than one card no card is its own successor. */
  lemma NotFixed(deck: seq<nat>, cycle: seq<nat>, p: nat)
    requires Permutes(deck) && Cycles(deck, cycle) && |deck| > 1 && p < |cycle|
    ensures cycle[p] < |deck| && deck[cycle[p]] != cycle[p]
  {
    if p + 1 < |cycle| { assert deck[cycle[p]] == cycle[p + 1]; }
  }

  lemma RestPermutes(deck: seq<nat>, j: nat)
    requires Permutes(deck) && |deck| > 1 && j < |deck| - 1 && deck[j] == |deck| - 1
    ensures Permutes(deck[..|deck| - 1][j := deck[|deck| - 1]])
  {
    var m := |deck| - 1;
    var rest := deck[..m][j := deck[m]];
    forall i | 0 <= i < m ensures rest[i] < m {
      if i != j { assert deck[i] != deck[j]; } else { assert deck[m] != deck[j]; }
    }
  }

  lemma CycleWithout(deck: seq<nat>, cycle: seq<nat>, p: nat, j: nat)
    requires Permutes(deck) && Cycles(deck, cycle) && |deck| > 1 && p < |cycle| && cycle[p] == |deck| - 1
    requires j < |deck| - 1 && deck[j] == |deck| - 1
    ensures Cycles(deck[..|deck| - 1][j := deck[|deck| - 1]], cycle[..p] + cycle[p + 1..])
  {
    var m := |deck| - 1;
    var rest, left := deck[..m][j := deck[m]], cycle[..p] + cycle[p + 1..];
    forall i | 0 <= i < m ensures left[i] == cycle[if i < p then i else i + 1] {}
    LeftPermutes(cycle, p);
    var before := if p > 0 then p - 1 else m;
    assert deck[cycle[before]] == cycle[p];
    assert cycle[before] == j by { SameCard(deck, cycle[before], j); }
    forall i | 0 <= i < m - 1 ensures rest[left[i]] == left[i + 1] {
      var x := if i < p then i else i + 1;
      if x != before { assert cycle[x] != cycle[before]; }
    }
    var last := if m - 1 < p then m - 1 else m;
    if last != before { assert cycle[last] != cycle[before]; }
    assert rest[left[m - 1]] == left[0];
  }

  lemma SameCard(deck: seq<nat>, i: nat, j: nat)
    requires Permutes(deck) && i < |deck| && j < |deck| && deck[i] == deck[j]
    ensures i == j
  {}

  lemma LeftPermutes(cycle: seq<nat>, p: nat)
    requires Permutes(cycle) && |cycle| > 1 && p < |cycle| && cycle[p] == |cycle| - 1
    ensures Permutes(cycle[..p] + cycle[p + 1..])
  {
    var m := |cycle| - 1;
    var left := cycle[..p] + cycle[p + 1..];
    forall i | 0 <= i < m ensures left[i] == cycle[if i < p then i else i + 1] {}
    forall i | 0 <= i < m ensures left[i] < m { assert cycle[if i < p then i else i + 1] != cycle[p]; }
    forall i, k | 0 <= i < k < m ensures left[i] != left[k] {
      assert cycle[if i < p then i else i + 1] != cycle[if k < p then k else k + 1];
    }
  }

  /** Each place is one that a new card may go to. */
  predicate PlacesFit(js: seq<nat>, size: nat) {
    forall k :: 0 <= k < |js| ==> js[k] < size + k
  }

  /** Cards put in one after the other at these places. */
  function Extend(deck: seq<nat>, js: seq<nat>): (r: seq<nat>)
    requires PlacesFit(js, |deck|)
    ensures |r| == |deck| + |js|
  {
    if js == [] then deck else Insert(Extend(deck, js[..|js| - 1]), js[|js| - 1])
  }

  lemma {:induction false} CyclePlaces(deck: seq<nat>, cycle: seq<nat>) returns (js: seq<nat>)
    requires Permutes(deck) && Cycles(deck, cycle)
    ensures |js| == |deck| - 1 && PlacesFit(js, 1) && Extend([0], js) == deck
    decreases |deck|
  {
    if |deck| == 1 {
      js := [];
      assert deck == [0];
    } else {
      var rest, cycle', j := LastCard(deck, cycle);
      var first := CyclePlaces(rest, cycle');
      js := first + [j];
      assert js[..|js| - 1] == first;
    }
  }

  lemma {:induction false} ExtendTwice(deck: seq<nat>, a: seq<nat>, b: seq<nat>)
    requires PlacesFit(a + b, |deck|)
    ensures PlacesFit(a, |deck|) && PlacesFit(b, |deck| + |a|)
    ensures Extend(deck, a + b) == Extend(Extend(deck, a), b)
  {
    assert forall k :: 0 <= k < |a| ==> a[k] == (a + b)[k];
    assert forall k :: 0 <= k < |b| ==> b[k] == (a + b)[|a| + k];
    if b == [] {
      assert a + b == a;
    } else {
      var c := b[..|b| - 1];
      assert (a + b)[..|a + b| - 1] == a + c;
      ExtendTwice(deck, a, c);
    }
  }

  lemma PickIs(rv: nat, byte: nat, width: nat, i: nat)
    requires (width == 0x100 || width == 0x1_0000) && byte < 4 && Field(rv, byte, width) < i
    ensures Pick(rv, byte, width, i) == Field(rv, byte, width)
  {
    hide Field;
  }

  /** A value with these bytes. */
  function FourBytes(a: nat, b: nat, c: nat, d: nat): nat { a + 0x100 * (b + 0x100 * (c + 0x100 * d)) }

  lemma Low(a: nat, r: nat, width: nat)
    requires a < width && (width == 0x100 || width == 0x1_0000)
    ensures (a + width * r) % width == a && (a + width * r) / width == r
  {
    if width == 0x100 { assert (a + 0x100 * r) / 0x100 == r; } else { assert (a + 0x1_0000 * r) / 0x1_0000 == r; }
  }

  lemma BytesAre(a: nat, b: nat, c: nat, d: nat)
    requires a < 0x100 && b < 0x100 && c < 0x100 && d < 0x100
    ensures var v := FourBytes(a, b, c, d);
      Field(v, 0, 0x100) == a && Field(v, 1, 0x100) == b && Field(v, 2, 0x100) == c && Field(v, 3, 0x100) == d
  {
    var v := FourBytes(a, b, c, d);
    assert Power(0x100, 0) == 1 && Power(0x100, 1) == 0x100 && Power(0x100, 2) == 0x1_0000;
    assert Power(0x100, 3) == 0x100 * Power(0x100, 2) == 0x100_0000;
    Low(a, b + 0x100 * (c + 0x100 * d), 0x100);
    Low(b, c + 0x100 * d, 0x100);
    Low(c, d, 0x100);
    assert v / 0x1_0000 == v / 0x100 / 0x100;
    assert v / 0x100_0000 == v / 0x1_0000 / 0x100;
  }

  lemma HalvesAre(a: nat, b: nat)
    requires a < 0x1_0000 && b < 0x1_0000
    ensures Field(a + 0x1_0000 * b, 0, 0x1_0000) == a && Field(a + 0x1_0000 * b, 1, 0x1_0000) == b
  {
    assert Power(0x1_0000, 0) == 1 && Power(0x1_0000, 1) == 0x1_0000;
    Low(a, b, 0x1_0000);
  }

  lemma LastPlace(deck: seq<nat>, js: seq<nat>)
    requires |js| > 0 && PlacesFit(js, |deck|)
    ensures var front := js[..|js| - 1]; var last := js[|js| - 1];
      && PlacesFit(front, |deck|) && last < |deck| + |front|
      && Extend(deck, js) == Insert(Extend(deck, front), last)
  {
    hide Insert;
  }

  lemma NextAt(deck: seq<nat>, js: seq<nat>, rv: nat, byte: nat, width: nat)
    requires |js| > 0 && PlacesFit(js, |deck|) && (width == 0x100 || width == 0x1_0000) && byte < 4
    requires Field(rv, byte, width) == js[|js| - 1]
    ensures PlacesFit(js[..|js| - 1], |deck|) && |deck| + |js| > 1
    ensures Next(Extend(deck, js[..|js| - 1]), rv, byte, width) == Extend(deck, js)
  {
    hide Field, Pick, Insert, Extend, PlacesFit;
    LastPlace(deck, js);
    PickIs(rv, byte, width, |deck| + |js| - 1);
  }

  /** Some value deals a whole group of cards to the places asked for. */
  lemma GroupDealt(deck: seq<nat>, js: seq<nat>, count: nat) returns (rv: nat)
    requires 0 < |deck| <= count <= 0x1_0000 && PlacesFit(js, |deck|)
    requires |js| == if count - |deck| < Width(count) then count - |deck| else Width(count)
    ensures Group(deck, rv, count) == Extend(deck, js)
  {
    hide Field, Insert, Next;
    if count <= 256 {
      rv := FourDealt(deck, js);
    } else {
      rv := TwoDealt(deck, js);
    }
  }

  lemma FourDealt(deck: seq<nat>, js: seq<nat>) returns (rv: nat)
    requires 0 < |deck| && |js| <= 4 && |deck| + |js| <= 256 && PlacesFit(js, |deck|)
    ensures forall left: nat :: |js| == (if left < 4 then left else 4) ==> Four(deck, rv, left) == Extend(deck, js)
  {
    hide Field, Insert, Next, Extend;
    assert js[..|js|] == js && Extend(deck, []) == deck by { ExtendNone(deck); }
    if |js| == 4 {
      rv := FourBytes(js[0], js[1], js[2], js[3]);
      BytesAre(js[0], js[1], js[2], js[3]);
      NextAt(deck, js[..1], rv, 0, 0x100);
      NextAt(deck, js[..2], rv, 1, 0x100);
      NextAt(deck, js[..3], rv, 2, 0x100);
      NextAt(deck, js, rv, 3, 0x100);
      Fronts(js);
    } else if |js| == 3 {
      rv := FourBytes(js[0], js[1], js[2], 0);
      BytesAre(js[0], js[1], js[2], 0);
      NextAt(deck, js[..1], rv, 0, 0x100);
      NextAt(deck, js[..2], rv, 1, 0x100);
      NextAt(deck, js, rv, 2, 0x100);
      Fronts(js);
    } else if |js| == 2 {
      rv := FourBytes(0, js[0], js[1], 0);
      BytesAre(0, js[0], js[1], 0);
      NextAt(deck, js[..1], rv, 1, 0x100);
      NextAt(deck, js, rv, 2, 0x100);
      Fronts(js);
    } else if |js| == 1 {
      rv := FourBytes(0, 0, js[0], 0);
      BytesAre(0, 0, js[0], 0);
      NextAt(deck, js, rv, 2, 0x100);
      Fronts(js);
    } else {
      rv := 0;
      assert js == [];
    }
  }

  lemma ExtendNone(deck: seq<nat>)
    ensures Extend(deck, []) == deck
  {}

  /** What is in front of the last place, of a list and of the fronts of it. */
  lemma Fronts(js: seq<nat>)
    ensures |js| >= 1 ==> js[..1][..0] == [] && js[..0] == []
    ensures |js| >= 2 ==> js[..2][..1] == js[..1] && js[..2][1] == js[1]
    ensures |js| >= 3 ==> js[..3][..2] == js[..2] && js[..3][2] == js[2]
  {}

  lemma TwoDealt(deck: seq<nat>, js: seq<nat>) returns (rv: nat)
    requires 0 < |deck| && |js| <= 2 && |deck| + |js| <= 0x1_0000 && PlacesFit(js, |deck|)
    ensures forall left: nat :: |js| == (if left < 2 then left else 2) ==> Two(deck, rv, left) == Extend(deck, js)
  {
    hide Field, Insert, Next, Extend;
    assert js[..|js|] == js && Extend(deck, []) == deck by { ExtendNone(deck); }
    if |js| == 2 {
      rv := js[0] + 0x1_0000 * js[1];
      HalvesAre(js[0], js[1]);
      NextAt(deck, js[..1], rv, 0, 0x1_0000);
      NextAt(deck, js, rv, 1, 0x1_0000);
      Fronts(js);
    } else if |js| == 1 {
      rv := js[0];
      HalvesAre(js[0], 0);
      NextAt(deck, js, rv, 0, 0x1_0000);
      Fronts(js);
    } else {
      rv := 0;
      assert js == [];
    }
  }

  /** The stream has these values from a position on. */
  ghost predicate Says(stream: Stream, at: nat, values: seq<nat>) {
    forall k: nat :: k < |values| ==> stream(at + k) == values[k]
  }

  /** Any places are dealt by any stream that has the right values. */
  lemma {:induction false} PlacesDealt(at: nat, deck: seq<nat>, js: seq<nat>, count: nat) returns (values: seq<nat>)
    requires 0 < |deck| <= count <= 0x1_0000 && |deck| + |js| == count && PlacesFit(js, |deck|)
    ensures forall stream: Stream :: Says(stream, at, values) ==>
      Deal(stream, at, deck, count) == (Extend(deck, js), at + |values|)
    decreases |js|
  {
    hide Extend, Group;
    var g := if |js| < Width(count) then |js| else Width(count);
    var first, rest := js[..g], js[g..];
    assert js == first + rest;
    ExtendTwice(deck, first, rest);
    var rv := GroupDealt(deck, first, count);
    var deck' := Extend(deck, first);
    if |js| < Width(count) {
      values := [rv];
      assert rest == [];
      ExtendNone(deck');
      forall stream: Stream | Says(stream, at, values)
        ensures Deal(stream, at, deck, count) == (Extend(deck, js), at + |values|)
      {
        assert stream(at + 0) == values[0];
      }
    } else {
      var more := PlacesDealt(at + 1, deck', rest, count);
      values := [rv] + more;
      forall stream: Stream | Says(stream, at, values)
        ensures Deal(stream, at, deck, count) == (Extend(deck, js), at + |values|)
      {
        assert stream(at + 0) == values[0];
        forall k: nat | k < |more| ensures stream(at + 1 + k) == more[k] {
          assert stream(at + (k + 1)) == values[k + 1];
        }
        assert Says(stream, at + 1, more);
      }
    }
  }

  /** Every permutation of one cycle is dealt by some values, at every position of every stream that has them there. */
  lemma EveryCycle(deck: seq<nat>, cycle: seq<nat>, at: nat) returns (values: seq<nat>)
    requires Permutes(deck) && Cycles(deck, cycle) && |deck| <= 0x1_0000
    ensures |deck| > 0 && forall stream: Stream :: Says(stream, at, values) ==>
      Deck(stream, at, |deck|) == deck && DeckEnd(stream, at, |deck|) == at + |values|
  {
    hide Permutes, Extend;
    CyclesPermutes(deck, cycle);
    var js := CyclePlaces(deck, cycle);
    values := PlacesDealt(at, [0], js, |deck|);
  }

  // ---------- The shuffle as it runs ----------

  method Put(deck: array<nat>, i: nat, j: nat)
    requires 0 < i < deck.Length && j < i
    modifies deck
    ensures deck[..i + 1] == Insert(old(deck[..i]), j)
    ensures forall k :: i < k < deck.Length ==> deck[k] == old(deck[k])
  {
    deck[i] := deck[j];
    deck[j] := i;
  }

  /** Fields of one generator value deal four cards, and the last one to three from the back; decks
      of more than 256 cards take two cards of 16 bits from each. */
  method ShuffleDeck16(stream: Stream, at: nat, deck: array<nat>, count: nat) returns (end: nat)
    requires 1 <= count <= 0x1_0000 && count <= deck.Length
    modifies deck
    ensures deck[..count] == Deck(stream, at, count)
    ensures forall k :: count <= k < deck.Length ==> deck[k] == old(deck[k])
    ensures end == DeckEnd(stream, at, count)
  {
    hide Insert, Pick, Power;
    deck[0] := 0;
    var i := 1;
    end := at;
    assert deck[..1] == [0];
    while true
      invariant 1 <= i <= count
      invariant forall k :: count <= k < deck.Length ==> deck[k] == old(deck[k])
      invariant Deal(stream, end, deck[..i], count) == Deal(stream, at, [0], count)
      decreases count - i
    {
      var rv := stream(end);
      end := end + 1;
      var left := count - i;
      if count <= 256 {
        i := DealFour(deck, i, rv, count);
        if left < 4 {
          return;
        }
      } else {
        i := DealTwo(deck, i, rv, count);
        if left < 2 {
          return;
        }
      }
    }
  }

  method Card(deck: array<nat>, i: nat, rv: nat, byte: nat, width: nat)
    requires 0 < i < deck.Length && (width == 0x100 || width == 0x1_0000) && byte < 4
    modifies deck
    ensures deck[..i + 1] == Next(old(deck[..i]), rv, byte, width)
    ensures forall k :: i < k < deck.Length ==> deck[k] == old(deck[k])
  {
    Put(deck, i, Pick(rv, byte, width, i));
  }

  method DealFour(deck: array<nat>, i: nat, rv: nat, count: nat) returns (i': nat)
    requires 0 < i <= count <= deck.Length && count <= 256
    modifies deck
    ensures i' == (if count - i < 4 then count else i + 4)
    ensures deck[..i'] == Group(old(deck[..i]), rv, count)
    ensures forall k :: i' <= k < deck.Length ==> deck[k] == old(deck[k])
  {
    hide Next;
    if count - i >= 4 {
      Card(deck, i, rv, 0, 0x100);
      Card(deck, i + 1, rv, 1, 0x100);
      Card(deck, i + 2, rv, 2, 0x100);
      Card(deck, i + 3, rv, 3, 0x100);
      i' := i + 4;
    } else {
      i' := DealLast(deck, i, rv, count);
    }
  }

  /** The last one to three cards: they take the third field, the second before it, the first before that. */
  method DealLast(deck: array<nat>, i: nat, rv: nat, count: nat) returns (i': nat)
    requires 0 < i <= count <= deck.Length && count - i < 4
    modifies deck
    ensures i' == count
    ensures deck[..i'] == Four(old(deck[..i]), rv, count - i)
    ensures forall k :: i' <= k < deck.Length ==> deck[k] == old(deck[k])
  {
    hide Next;
    i' := i;
    if count - i == 3 {
      Card(deck, i', rv, 0, 0x100);
      i' := i' + 1;
    }
    if count - i >= 2 {
      Card(deck, i', rv, 1, 0x100);
      i' := i' + 1;
    }
    if count - i >= 1 {
      Card(deck, i', rv, 2, 0x100);
      i' := i' + 1;
    }
  }

  method DealTwo(deck: array<nat>, i: nat, rv: nat, count: nat) returns (i': nat)
    requires 0 < i <= count <= deck.Length && count > 256
    modifies deck
    ensures i' == (if count - i < 2 then count else i + 2)
    ensures deck[..i'] == Group(old(deck[..i]), rv, count)
    ensures forall k :: i' <= k < deck.Length ==> deck[k] == old(deck[k])
  {
    hide Next;
    i' := i;
    match count - i
    case 0 => return;
    case 1 =>
      Card(deck, i', rv, 0, 0x1_0000);
      i' := i' + 1;
    case _ =>
      Card(deck, i', rv, 0, 0x1_0000);
      Card(deck, i' + 1, rv, 1, 0x1_0000);
      i' := i' + 2;
  }
}

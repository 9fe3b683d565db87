/** What the candidate counters of peeling count. For an unmarked column it is the number of rows that have exactly
    two unmarked columns left, one of them this one. */
module Tally {
  import opened Finite
  import opened Rows
  import opened PeelState

  /** The columns that a row remembers, as far as it has stored them. */
  function Remembered(m: Marks, count: nat): (r: set<nat>) {
    if !m.Unmarked? || count == 0 then {} else if count == 1 then {m.first} else {m.first, m.second}
  }

  /** Row r is on no list, is down to two columns, and remembers column c. */
  ghost predicate Waits(s: State, r: nat, c: nat) {
    && r < |s.counts| && r < |s.marks| && !Placed(s.peels, s.defers, r) && s.counts[r] == 2
    && c in Remembered(s.marks[r], 2)
  }

  ghost function Waiting(s: State, c: nat, but: set<nat>): (q: set<nat>)
    ensures forall r: nat :: r in q <==> r !in but && Waits(s, r, c)
  {
    set r: nat | r < |s.counts| && r !in but && Waits(s, r, c)
  }

  /** The counter of an unmarked column counts the rows that wait for it; the rows in but are left out, and instead
      the columns in extra are counted once more. */
  ghost predicate TallyAt(s: State, c: nat, but: set<nat>, extra: set<nat>) {
    && c < |s.uses| && s.uses[c].Weight2Refs?
    && s.uses[c].refs == |Waiting(s, c, but)| + if c in extra then 1 else 0
  }

  ghost predicate Tallied(s: State, but: set<nat>, extra: set<nat>) {
    |s.counts| < 0xffff && forall c: nat :: IsTodo(s.columnMarks, c) ==> TallyAt(s, c, but, extra)
  }

  /** Counters stay right as long as the same rows wait. */
  lemma TallySame(s: State, t: State, but: set<nat>, but': set<nat>, extra: set<nat>, extra': set<nat>)
    requires Tallied(s, but, extra) && |t.counts| < 0xffff && |t.uses| == |s.uses|
    requires forall c: nat :: IsTodo(t.columnMarks, c) ==>
      IsTodo(s.columnMarks, c) && (c < |s.uses| ==> t.uses[c] == s.uses[c])
    requires forall c: nat :: IsTodo(t.columnMarks, c) ==> (c in extra <==> c in extra')
    requires forall c: nat, r: nat :: IsTodo(t.columnMarks, c) ==>
      (r !in but' && Waits(t, r, c) <==> r !in but && Waits(s, r, c))
    ensures Tallied(t, but', extra')
  {
    hide Waits;
    forall c: nat | IsTodo(t.columnMarks, c) ensures TallyAt(t, c, but', extra') {
      assert TallyAt(s, c, but, extra);
      assert Waiting(t, c, but') == Waiting(s, c, but);
    }
  }

  /** A row that leaves the rows in between counts where it waits. */
  lemma TallySettled(s: State, r: nat, extra: set<nat>)
    requires Tallied(s, {r}, extra)
    requires forall c: nat :: IsTodo(s.columnMarks, c) ==> (c in extra <==> Waits(s, r, c))
    ensures Tallied(s, {}, {})
  {
    hide Waits;
    forall c: nat | IsTodo(s.columnMarks, c) ensures TallyAt(s, c, {}, {}) {
      assert TallyAt(s, c, {r}, extra);
      assert Waiting(s, c, {}) == if Waits(s, r, c) then Waiting(s, c, {r}) + {r} else Waiting(s, c, {r});
    }
  }

  /** And the other way round. */
  lemma TallyTaken(s: State, r: nat, extra: set<nat>)
    requires Tallied(s, {}, {})
    requires forall c: nat :: IsTodo(s.columnMarks, c) ==> (c in extra <==> Waits(s, r, c))
    ensures Tallied(s, {r}, extra)
  {
    hide Waits;
    forall c: nat | IsTodo(s.columnMarks, c) ensures TallyAt(s, c, {r}, extra) {
      assert TallyAt(s, c, {}, {});
      assert Waiting(s, c, {}) == if Waits(s, r, c) then Waiting(s, c, {r}) + {r} else Waiting(s, c, {r});
    }
  }

  /** The row in between is counted for one more column. */
  lemma TallyBumped(s: State, r: nat, extra: set<nat>, c: nat)
    requires Tallied(s, {r}, extra) && IsTodo(s.columnMarks, c) && c !in extra
    ensures c < |s.uses| && s.uses[c].Weight2Refs?
    ensures Tallied(s.(uses := s.uses[c := Bumped(s.uses[c])]), {r}, extra + {c})
  {
    hide Waits;
    assert TallyAt(s, c, {r}, extra);
    var t := s.(uses := s.uses[c := Bumped(s.uses[c])]);
    WaitingFew(s, c, {r});
    forall x: nat | IsTodo(t.columnMarks, x) ensures TallyAt(t, x, {r}, extra + {c}) {
      assert TallyAt(s, x, {r}, extra);
      SameWaits(s, t, x, {r});
    }
  }

  lemma SameWaits(s: State, t: State, c: nat, but: set<nat>)
    requires t == s.(uses := t.uses)
    ensures Waiting(t, c, but) == Waiting(s, c, but)
  {}

  lemma WaitingFew(s: State, c: nat, but: set<nat>)
    ensures |Waiting(s, c, but)| <= |s.counts|
  {
    hide Waits;
    forall r | r in Waiting(s, c, but) ensures r < |s.counts| { WaitsBelow(s, r, c); }
    RangeFull(|s.counts|, Waiting(s, c, but));
  }

  lemma WaitsBelow(s: State, r: nat, c: nat)
    requires Waits(s, r, c)
    ensures r < |s.counts|
  {}

  /** Counters and union of a row in between do not matter. */
  lemma TallyFields(s: State, r: nat, extra: set<nat>, count: nat, m: Marks)
    requires Tallied(s, {r}, extra) && r < |s.counts| && r < |s.marks|
    ensures Tallied(s.(counts := s.counts[r := count], marks := s.marks[r := m]), {r}, extra)
  {
    TallySame(s, s.(counts := s.counts[r := count], marks := s.marks[r := m]), {r}, {r}, extra, extra);
  }

  /** The avalanche comes to a row, which was counted where it waited. */
  lemma TallyReached(s: State, r: nat, c: nat)
    requires Tallied(s, {}, {}) && r < |s.counts| && r < |s.unreached| && r < |s.marks|
    ensures var waited := !Placed(s.peels, s.defers, r) && s.counts[r] == 2;
      Tallied(Reach(s, r, c), {r}, if waited then Remembered(s.marks[r], 2) else {})
  {
    var waited := !Placed(s.peels, s.defers, r) && s.counts[r] == 2;
    var extra := if waited then Remembered(s.marks[r], 2) else {};
    TallyTaken(s, r, extra);
    TallySame(s, Reach(s, r, c), {r}, {r}, extra, extra);
  }

  /** A row is deferred, which has no unmarked column. */
  lemma TallyDeferred(s: State, r: nat, extra: set<nat>)
    requires Tallied(s, {r}, extra) && r < |s.nexts| && forall c: nat :: c in extra ==> !IsTodo(s.columnMarks, c)
    ensures Tallied(DeferRow(s, r), {}, {})
  {
    TallySame(s, DeferRow(s, r), {r}, {}, extra, {});
  }

  /** A row solves the only unmarked column it was counted for. */
  lemma TallySolved(s: State, r: nat, c: nat, extra: set<nat>)
    requires Tallied(s, {r}, extra) && r < |s.nexts| == |s.marks| && c < |s.columnMarks|
    requires s.peelTail == LIST_TERM || s.peelTail < |s.nexts|
    requires forall x :: x in extra && x != c ==> !IsTodo(s.columnMarks, x)
    ensures Tallied(SolveRow(s, r, c), {}, {})
  {
    var t := SolveRow(s, r, c);
    forall x: nat | IsTodo(t.columnMarks, x) ensures IsTodo(s.columnMarks, x) && x !in extra {}
    TallySame(s, t, {r}, {}, extra, {});
  }

  /** A new row is in between at first. */
  lemma TallyAppended(s: State, columns: seq<nat>, count: nat, next: nat, m: Marks)
    requires Tallied(s, {}, {}) && |s.counts| == |s.marks| < 0xfffe
    ensures Tallied(NewRow(s, columns, count, next, m), {|s.counts|}, {})
  {
    hide TodoOf, Listed;
    TallySame(s, NewRow(s, columns, count, next, m), {}, {|s.counts|}, {}, {});
  }

  /** A marked column is counted no more. */
  lemma TallyMarked(s: State, c: nat, mark: Mark)
    requires Tallied(s, {}, {}) && c < |s.columnMarks| && !mark.Todo?
    ensures Tallied(s.(columnMarks := s.columnMarks[c := mark]), {}, {})
  {
    TallySame(s, s.(columnMarks := s.columnMarks[c := mark]), {}, {}, {}, {});
  }

  lemma TallyWritten(s: State, c: nat, use: Use)
    requires Tallied(s, {}, {}) && c < |s.uses| && !IsTodo(s.columnMarks, c)
    ensures Tallied(s.(uses := s.uses[c := use]), {}, {})
  {
    TallySame(s, s.(uses := s.uses[c := use]), {}, {}, {}, {});
  }

  /** Outside an avalanche: a row waits for a column exactly when it has two unmarked columns and this is one. */
  lemma WaitsMeans(s: State, r: nat, c: nat)
    requires InvBut(s, {}, {}, {}) && r < |s.columnsOf| && IsTodo(s.columnMarks, c)
    ensures Waits(s, r, c) <==> |TodoOf(s.columnsOf[r], s.columnMarks)| == 2 && c in s.columnsOf[r]
  {
    hide RefsOk, ListsOk, SolvesOk, OrderOk, UseOk, DefersOk;
    RowSettled(s, r);
    var columns, cm := s.columnsOf[r], s.columnMarks;
    assert ReachOf(cm, columns, s.unreached[r], {}) && RowShape(s.n, columns);
    assert RowOk(s.counts[r], s.marks[r], s.unreached[r], Placed(s.peels, s.defers, r));
    assert Elements(TodoOf(columns, cm)) == s.unreached[r];
    ElementsSize(TodoOf(columns, cm));
    if Placed(s.peels, s.defers, r) { assert c !in columns; }
  }

  /** The other of the two columns that a row remembers. */
  function OtherColumn(m: Marks, c: nat): nat
    requires m.Unmarked?
  {
    if m.first == c then m.second else m.first
  }

  /** After the avalanche of a marked column came to a row: when one column is left, the row is counted there. */
  lemma TallyAfter(s: State, r: nat, c: nat)
    requires Tallied(s, {}, {}) && r < |s.counts| == |s.marks| == |s.unreached| && c in s.unreached[r]
    requires RowOk(s.counts[r], s.marks[r], s.unreached[r], Placed(s.peels, s.defers, r)) && !IsTodo(s.columnMarks, c)
    requires |s.unreached[r]| <= MAX_WEIGHT
    ensures var t := Reach(s, r, c); var count := t.counts[r];
      && (count == 1 ==> t.marks[r].Unmarked? && var x := OtherColumn(t.marks[r], c);
            Tallied(t, {r}, if IsTodo(t.columnMarks, x) then {x} else {}))
      && (count == 2 ==> Tallied(t, {r}, {}))
      && (count != 1 && count != 2 ==> Tallied(t, {}, {}))
  {
    hide Tallied, Waits;
    var placed := Placed(s.peels, s.defers, r);
    var extra := if !placed && s.counts[r] == 2 then Remembered(s.marks[r], 2) else {};
    var t := Reach(s, r, c);
    TallyReached(s, r, c);
    ReachCount(s.counts[r], s.marks[r], s.unreached[r], placed, c);
    if t.counts[r] == 1 {
      var x := OtherColumn(t.marks[r], c);
      TallyLeft(t, r, extra, if IsTodo(t.columnMarks, x) then {x} else {});
    } else if t.counts[r] != 2 {
      NotWaiting(t, r);
      TallySettled(t, r, extra);
    }
  }

  lemma TallyLeft(s: State, r: nat, extra: set<nat>, extra': set<nat>)
    requires Tallied(s, {r}, extra) && forall x: nat :: IsTodo(s.columnMarks, x) ==> (x in extra <==> x in extra')
    ensures Tallied(s, {r}, extra')
  {
    TallySame(s, s, {r}, {r}, extra, extra');
  }

  lemma NotWaiting(s: State, r: nat)
    requires r < |s.counts| && s.counts[r] != 2
    ensures forall c :: !Waits(s, r, c)
  {}

  lemma StoredBefore(columns: seq<nat>, cm: seq<Mark>, k: nat, m: Marks, count: nat)
    requires k < |columns| && NoRepeat(columns) && Stored(columns, cm, k, m, count)
    ensures columns[k] !in Remembered(m, count)
  {
    hide TodoOf;
    var t := TodoOf(columns[..k], cm);
    forall c | c in t ensures c != columns[k] { assert c in columns[..k]; }
    if count >= 1 { assert t[0] in t; }
    if count >= 2 { assert t[1] in t; }
  }
}

/** Stage 1, the algorithm: rows are fed one at a time, each marked column starts an avalanche
    over the rows that contain it, and greedy peeling defers columns until none is left. */
module Peeling {
  import opened Finite
  import opened Rows
  import opened PeelState
  import opened Tally

  class Peeler {
    const code: Code

    var ids: seq<nat>
    var nexts: seq<nat>
    var counts: seq<nat>
    var marks: seq<Marks>
    var columnMarks: seq<Mark>
    var uses: seq<Use>
    var nextColumns: seq<nat>
    var refs: seq<seq<nat>>
    var peelHead: nat
    var peelTail: nat
    var deferHead: nat
    var deferColumnHead: nat
    var deferCount: nat

    ghost var columnsOf: seq<seq<nat>>
    ghost var unreached: seq<set<nat>>
    ghost var peels: seq<nat>
    ghost var defers: seq<nat>
    ghost var position: map<nat, nat>
    ghost var deferColumns: seq<nat>

    /** Before any row is read in. */
    constructor (code: Code)
      requires ValidCode(code) && code.n <= MAX_N
      ensures this.code == code && Feeding() && ids == [] && |nextColumns| == code.n
    {
      this.code := code;
      ids, nexts, counts, marks, columnsOf, unreached := [], [], [], [], [], [];
      columnMarks := seq(code.n, _ => Todo);
      uses := seq(code.n, _ => Weight2Refs(0));
      refs := seq(code.n, _ => []);
      nextColumns := seq(code.n, _ => 0);
      peelHead, peelTail, deferHead, deferColumnHead, deferCount := LIST_TERM, LIST_TERM, LIST_TERM, LIST_TERM, 0;
      peels, defers, deferColumns := [], [], [];
      position := map[];
    }

    ghost function S(): State
      reads this
    {
      State(code.n, nexts, counts, marks, columnMarks, uses, refs, peelHead, peelTail, deferHead,
        columnsOf, unreached, peels, defers, position)
    }

    /** The columns of a row are those its id generates. */
    ghost predicate Known()
      reads `ids, `columnsOf
    {
      && ValidCode(code) && code.n <= MAX_N && |ids| == |columnsOf|
      && (forall r :: 0 <= r < |ids| ==> columnsOf[r] == RowColumns(code, ids[r]))
    }

    ghost predicate Valid()
      reads this
    {
      Known() && InvBut(S(), {}, {}, {}) && Tallied(S(), {}, {})
    }

    ghost predicate NoneTodo(flight: set<nat>)
      reads `columnMarks
    {
      forall c :: c in flight ==> !IsTodo(columnMarks, c)
    }

    method Store(r: nat, c: nat, at: nat, ghost flight: set<nat>, ghost pending: set<nat>)
      requires InvBut(S(), flight, pending, {r}) && r < |counts| && r !in peels && IsTodo(columnMarks, c)
      requires r < |marks| && marks[r].Unmarked? && at <= 1
      requires Tallied(S(), {r}, Remembered(marks[r], at)) && c !in Remembered(marks[r], at)
      modifies `marks, `uses
      ensures InvBut(S(), flight, pending, {r}) && r < |marks| && Tallied(S(), {r}, Remembered(marks[r], at + 1))
      ensures marks == old(marks)[r := if at == 0 then Unmarked(c, old(marks)[r].second)
        else Unmarked(old(marks)[r].first, c)]
    {
      hide InvBut, Tallied;
      ghost var s := S();
      var m := if at == 0 then Unmarked(c, marks[r].second) else Unmarked(marks[r].first, c);
      StoreKeeps(s, flight, pending, r, m, c);
      ghost var extra := Remembered(marks[r], at);
      TallyFields(s, r, extra, counts[r], m);
      marks := marks[r := m];
      assert s.counts[r := s.counts[r]] == s.counts;
      assert S() == s.(counts := s.counts[r := s.counts[r]], marks := s.marks[r := m]);
      TallyBumped(S(), r, extra, c);
      uses := uses[c := Bumped(uses[c])];
      assert extra + {c} == Remembered(m, at + 1);
    }

    /** The next column of row r, if unmarked. */
    method Note(r: nat, columns: seq<nat>, k: nat, count: nat, ghost flight: set<nat>, ghost pending: set<nat>)
      returns (stored: nat)
      requires InvBut(S(), flight, pending, {r}) && r < |counts| && r !in peels && r < |marks|
      requires k < |columns| && columns[k] < |columnMarks| && |TodoOf(columns, columnMarks)| <= 2
      requires Stored(columns, columnMarks, k, marks[r], count) && NoRepeat(columns)
      requires Tallied(S(), {r}, Remembered(marks[r], count))
      modifies `marks, `uses
      ensures InvBut(S(), flight, pending, {r})
      ensures |marks| == |old(marks)| && marks == old(marks)[r := marks[r]]
      ensures Stored(columns, columnMarks, k + 1, marks[r], stored)
      ensures Tallied(S(), {r}, Remembered(marks[r], stored))
    {
      hide InvBut, TodoOf, Tallied;
      StoredStep(columns, columnMarks, k, marks[r], count);
      StoredBefore(columns, columnMarks, k, marks[r], count);
      stored := count;
      if columnMarks[columns[k]].Todo? {
        Store(r, columns[k], count, flight, pending);
        stored := count + 1;
      }
    }

    /** Store the unmarked columns of row r in its union and count r among their candidates. */
    method Rescan(r: nat, ghost flight: set<nat>, ghost pending: set<nat>) returns (stored: nat)
      requires Known() && InvBut(S(), flight, pending, {r}) && r < |ids| && r !in peels
      requires |unreached[r]| == 2 && marks[r].Unmarked? && Tallied(S(), {r}, {})
      modifies `marks, `uses
      ensures InvBut(S(), flight, pending, {r}) && Progressed(old(S()), S(), flight)
      ensures r < |marks| && Tallied(S(), {r}, Remembered(marks[r], stored))
      ensures marks == old(marks)[r := marks[r]] && marks[r].Unmarked?
      ensures stored == |TodoOf(columnsOf[r], columnMarks)| <= 2
      ensures stored >= 1 ==> marks[r].first == TodoOf(columnsOf[r], columnMarks)[0]
      ensures stored == 2 ==> unreached[r] == {marks[r].first, marks[r].second}
    {
      hide InvBut, Progressed, TodoOf, ReachOf, NoRepeat, Stored, RowColumns, ValidCode, Elements, Tallied;
      ghost var s := S();
      var columns := RowColumns(code, ids[r]);
      assert columns == columnsOf[r];
      RowBound(r, flight, pending);
      StoredNone(columns, columnMarks, marks[r]);
      stored := 0;
      var k := 0;
      while k < |columns|
        invariant 0 <= k <= |columns|
        invariant InvBut(S(), flight, pending, {r})
        invariant |marks| == |s.marks| && marks == s.marks[r := marks[r]]
        invariant Stored(columns, columnMarks, k, marks[r], stored)
        invariant Tallied(S(), {r}, Remembered(marks[r], stored))
      {
        stored := Note(r, columns, k, stored, flight, pending);
        k := k + 1;
      }
      StoredAll(columns, columnMarks, marks[r], stored);
      ProgressedSame(s, S(), flight);
    }

    /** Two columns of row r are left to reach: unless both are unmarked it is solved or deferred. */
    method TwoLeft(r: nat, ghost flight: set<nat>, ghost pending: set<nat>)
      requires Known() && InvBut(S(), flight, pending, {r}) && NoneTodo(flight)
      requires r < |ids| && !Placed(peels, defers, r)
      requires r < |counts| == |marks| == |unreached| && counts[r] == |unreached[r]| == 2 && marks[r].Unmarked?
      requires Tallied(S(), {r}, {})
      modifies `nexts, `counts, `marks, `columnMarks, `uses, `peelHead, `peelTail, `deferHead,
        `unreached, `peels, `defers, `position
      ensures InvBut(S(), flight, pending, {}) && Progressed(old(S()), S(), flight) && Tallied(S(), {}, {})
      decreases |TodoSet(columnMarks)|, 1
    {
      hide InvBut, Progressed, RowColumns, ValidCode, TodoSet, TodoOf, Tallied;
      ghost var s := S();
      var stored := Rescan(r, flight, pending);
      ghost var t := S();
      Sizes(t, flight, pending, {r});
      if stored <= 1 {
        RowFieldsKeep(t, flight, pending, r, 0, marks[r]);
        TallyFields(t, r, Remembered(marks[r], stored), 0, marks[r]);
        counts := counts[r := 0];
        ghost var u := S();
        assert t.marks[r := marks[r]] == t.marks;
        assert u == t.(counts := t.counts[r := 0], marks := t.marks[r := marks[r]]);
        ProgressedSame(t, u, flight);
        if stored == 1 {
          OneTodo(columnsOf[r], columnMarks);
          SolveWithPeel(r, marks[r].first, flight, pending, {marks[r].first});
        } else {
          PutOff(r, flight, pending, {});
        }
        ProgressedTrans(t, u, S(), flight);
        ProgressedTrans(s, t, S(), flight);
      } else {
        SettleRow(t, flight, pending, r);
        TallySettled(t, r, Remembered(marks[r], 2));
      }
    }

    /** The last column a row has left to be reached is the only one that may be unmarked. */
    lemma LastColumn(r: nat, column: nat, flight: set<nat>, pending: set<nat>)
      requires Known() && InvBut(S(), flight, pending, {r}) && r < |ids|
      requires r < |unreached| && unreached[r] == {column}
      ensures column < |columnMarks| && column in columnsOf[r]
      ensures forall x :: x in columnsOf[r] && x != column ==> !IsTodo(columnMarks, x)
    {
      RowBound(r, flight, pending);
      assert column in unreached[r];
      assert RowShape(code.n, columnsOf[r]);
    }

    lemma RowBound(r: nat, flight: set<nat>, pending: set<nat>)
      requires Known() && InvBut(S(), flight, pending, {r}) && r < |ids|
      ensures |marks| == |counts| == |unreached| == |ids| && |columnMarks| == |uses| == code.n
      ensures ReachOf(columnMarks, columnsOf[r], unreached[r], flight) && NoRepeat(columnsOf[r])
      ensures |TodoOf(columnsOf[r], columnMarks)| <= |unreached[r]|
      ensures |TodoOf(columnsOf[r], columnMarks)| == |unreached[r]| ==>
        unreached[r] == Elements(TodoOf(columnsOf[r], columnMarks))
    {
      assert RowShape(code.n, columnsOf[r]);
      TodoOfLeft(columnsOf[r], columnMarks, unreached[r], flight);
    }

    /** Defer row r, which has no unmarked column. */
    method PutOff(r: nat, ghost flight: set<nat>, ghost pending: set<nat>, ghost extra: set<nat>)
      requires InvBut(S(), flight, pending, {r}) && r < |nexts| && !Placed(peels, defers, r)
      requires r < |counts| && r < |unreached| && PlacedCount(counts[r], |unreached[r]|)
      requires r < |columnsOf| && NoneTodoOf(columnsOf[r], columnMarks)
      requires Tallied(S(), {r}, extra) && forall c: nat :: c in extra ==> !IsTodo(columnMarks, c)
      modifies `nexts, `deferHead, `defers
      ensures InvBut(S(), flight, pending, {}) && Progressed(old(S()), S(), flight) && Tallied(S(), {}, {})
    {
      hide InvBut, Progressed, PlacedCount, Placed, Tallied;
      Sizes(S(), flight, pending, {r});
      TallyDeferred(S(), r, extra);
      DeferKeeps(S(), flight, pending, r);
      nexts := nexts[r := deferHead];
      deferHead := r;
      defers := [r] + defers;
    }

    /** Mark column c as solved and link row r at the back of the peeled list. */
    method LinkSolved(r: nat, c: nat)
      requires r < |nexts| == |marks| && c < |columnMarks| && (peelTail == LIST_TERM || peelTail < |nexts|)
      modifies `nexts, `marks, `columnMarks, `peelHead, `peelTail, `peels, `position
      ensures columnMarks == old(columnMarks)[c := Peel] && marks == old(marks)[r := Result(c, false)]
      ensures nexts == AppendLink(old(nexts), old(peelTail), r)
      ensures peelHead == (if old(peelTail) == LIST_TERM then r else old(peelHead)) && peelTail == r
      ensures position == old(position)[c := |old(peels)|] && peels == old(peels) + [r]
    {
      hide AppendLink;
      var links := AppendLink(nexts, peelTail, r);
      columnMarks, marks, nexts, peelHead, peelTail, position, peels :=
        columnMarks[c := Peel], marks[r := Result(c, false)], links,
        if peelTail == LIST_TERM then r else peelHead, r, position[c := |peels|], peels + [r];
    }

    /** Row r solves column c, which starts an avalanche of its own. */
    method SolveWithPeel(r: nat, c: nat, ghost flight: set<nat>, ghost pending: set<nat>, ghost extra: set<nat>)
      requires Known() && InvBut(S(), flight, pending, {r}) && NoneTodo(flight)
      requires r < |ids| && !Placed(peels, defers, r)
      requires r < |counts| && r < |unreached| && PlacedCount(counts[r], |unreached[r]|)
      requires IsTodo(columnMarks, c) && c in columnsOf[r]
      requires forall x :: x in columnsOf[r] && x != c ==> !IsTodo(columnMarks, x)
      requires Tallied(S(), {r}, extra) && extra <= {c}
      modifies `nexts, `counts, `marks, `columnMarks, `uses, `peelHead, `peelTail, `deferHead,
        `unreached, `peels, `defers, `position
      ensures InvBut(S(), flight, pending, {}) && Progressed(old(S()), S(), flight) && Tallied(S(), {}, {})
      decreases |TodoSet(columnMarks)|, 0
    {
      hide InvBut, Progressed, PlacedCount, Placed, Fresh, TodoSet, RowColumns, ValidCode, Tallied;
      ghost var s := S();
      Sizes(s, flight, pending, {r});
      TallySolved(s, r, c, extra);
      SolveKeeps(s, flight, pending, r, c);
      SolveRowFacts(s, r, c);
      LinkSolved(r, c);
      ghost var t := S();
      assert t == SolveRow(s, r, c);
      ProgressedMarked(s, t, flight, flight);
      PeelAvalancheOnSolve(c, flight + {c}, pending + {c});
      assert flight + {c} - {c} == flight;
      ghost var u := S();
      ProgressedTrans(s, t, u, flight);
      AfterSolve(t, u, r, c, flight);
      WriteSolver(u, flight, pending, c, r);
      TallyWritten(u, c, SolvedBy(r));
      uses := uses[c := SolvedBy(r)];
      ProgressedSame(u, S(), flight);
      ProgressedTrans(s, u, S(), flight);
    }

    /** Tell the rows that contain column c, marked just now. */
    method PeelAvalancheOnSolve(c: nat, ghost flight: set<nat>, ghost pending: set<nat>)
      requires Known() && InvBut(S(), flight, pending, {}) && NoneTodo(flight) && Tallied(S(), {}, {})
      requires c in flight && c < code.n && Fresh(S(), c)
      modifies `nexts, `counts, `marks, `columnMarks, `uses, `peelHead, `peelTail, `deferHead,
        `unreached, `peels, `defers, `position
      ensures InvBut(S(), flight - {c}, pending, {}) && Progressed(old(S()), S(), flight - {c}) && Tallied(S(), {}, {})
      decreases |TodoSet(columnMarks)|, 3
    {
      hide InvBut, Progressed, Fresh, RowColumns, ValidCode, TodoSet, Tallied;
      ghost var s := S();
      Sizes(s, flight, pending, {});
      FreshRefs(s, flight, pending, c);
      ProgressedSame(s, s, flight - {c});
      var list := refs[c];
      var k := 0;
      while k < |list|
        invariant 0 <= k <= |list| && |unreached| == |s.unreached|
        invariant InvBut(S(), flight, pending, {}) && Progressed(s, S(), flight - {c}) && NoneTodo(flight)
        invariant Tallied(S(), {}, {})
        invariant forall q :: 0 <= q < |unreached| ==> (c in unreached[q] <==> q in list[k..])
      {
        ghost var t := S();
        ProgressedTodo(s, t, flight - {c});
        NextRef(list, k);
        AvalancheRow(list[k], c, flight, pending);
        ProgressedMarked(t, S(), flight - {c}, flight);
        ProgressedTrans(s, t, S(), flight - {c});
        k := k + 1;
      }
      LandFlight(S(), flight, pending, c);
    }

    /** The avalanche of column c comes to row r: the row solves its last unmarked column, is
        deferred when that is marked by now, or is noted when two columns are left. */
    method AvalancheRow(r: nat, c: nat, ghost flight: set<nat>, ghost pending: set<nat>)
      requires Known() && InvBut(S(), flight, pending, {}) && NoneTodo(flight) && Tallied(S(), {}, {})
      requires r < |ids| && c in flight && r < |unreached| && c in unreached[r]
      modifies `nexts, `counts, `marks, `columnMarks, `uses, `peelHead, `peelTail, `deferHead,
        `unreached, `peels, `defers, `position
      ensures InvBut(S(), flight, pending, {}) && Progressed(old(S()), S(), flight - {c}) && Tallied(S(), {}, {})
      ensures |unreached| == |old(unreached)|
      ensures forall q :: 0 <= q < |unreached| ==> (c in unreached[q] <==> c in old(unreached)[q] && q != r)
      decreases |TodoSet(columnMarks)|, 2
    {
      hide InvBut, Progressed, RowOk, Placed, Tallied;
      ghost var s := S();
      Sizes(s, flight, pending, {});
      ReachKeeps(s, flight, pending, r, c);
      TallyAfter(s, r, c);
      ReachCount(s.counts[r], s.marks[r], s.unreached[r], Placed(peels, defers, r), c);
      counts := counts[r := Dec16(counts[r])];
      unreached := unreached[r := unreached[r] - {c}];
      ghost var t := S();
      assert t == Reach(s, r, c);
      var count := counts[r];
      if count == 1 {
        var column := if marks[r].first == c then marks[r].second else marks[r].first;
        LastColumn(r, column, flight, pending);
        if columnMarks[column].Todo? {
          SolveWithPeel(r, column, flight, pending, {column});
        } else {
          PutOff(r, flight, pending, {});
        }
      } else if count == 2 {
        TwoLeft(r, flight, pending);
      } else {
        SettleRow(t, flight, pending, r);
        ProgressedSame(t, t, flight);
      }
      AfterReach(s, t, S(), r, c, flight);
    }

    // ---------- Reading a row in ----------

    /** Enter row r under its columns and note the unmarked ones, or leave everything as it was
        when a list is full. */
    method Reference(r: nat, columns: seq<nat>) returns (ok: bool, unmarked: nat, a: nat, b: nat)
      requires NoRepeat(columns) && |refs| == |columnMarks|
      requires forall k :: 0 <= k < |columns| ==> columns[k] < |refs|
      modifies `refs
      ensures ok <==> forall k :: 0 <= k < |columns| ==> |old(refs)[columns[k]]| < REF_LIST_MAX
      ensures if ok then refs == Listed(old(refs), columns, r) else refs == old(refs)
      ensures ok ==> Noted(columns, columnMarks, |columns|, unmarked, a, b)
    {
      hide Listed, Noted;
      ghost var refs0 := refs;
      unmarked, a, b := 0, 0, 0;
      NotedNone(columns, columnMarks, a, b);
      ListedNone(refs, columns, r);
      assert columns[..0] == columns[0..0];
      var k := 0;
      while k < |columns|
        invariant 0 <= k <= |columns|
        invariant refs == Listed(refs0, columns[0..k], r)
        invariant forall j :: 0 <= j < k ==> |refs0[columns[j]]| < REF_LIST_MAX
        invariant Noted(columns, columnMarks, k, unmarked, a, b)
      {
        var c := columns[k];
        ListedNext(refs0, columns, r, 0, k);
        if |refs[c]| >= REF_LIST_MAX {
          FixPeelFailure(columns, k, r, refs0);
          return false, 0, 0, 0;
        }
        refs := refs[c := refs[c] + [r]];
        NotedStep(columns, columnMarks, k, unmarked, a, b);
        if columnMarks[c].Todo? {
          if unmarked % 2 == 0 { a := c; } else { b := c; }
          unmarked := unmarked + 1;
        }
        k := k + 1;
      }
      assert columns[0..|columns|] == columns;
      ok := true;
    }

    /** Take row r out of the lists it was entered in, up to the column whose list was full. */
    method FixPeelFailure(columns: seq<nat>, fail: nat, ghost r: nat, ghost refs0: seq<seq<nat>>)
      requires NoRepeat(columns) && fail < |columns|
      requires forall k :: 0 <= k < |columns| ==> columns[k] < |refs0|
      requires refs == Listed(refs0, columns[0..fail], r)
      modifies `refs
      ensures refs == refs0
    {
      hide Listed;
      var k := 0;
      while columns[k] != columns[fail]
        invariant 0 <= k <= fail && refs == Listed(refs0, columns[k..fail], r)
        decreases fail - k
      {
        var c := columns[k];
        ListedDrop(refs0, columns, r, k, fail);
        refs := refs[c := refs[c][..|refs[c]| - 1]];
        k := k + 1;
      }
      ListedNone(refs0, columns, r);
      assert columns[k..fail] == columns[..0];
    }

    /** No column has been deferred, as long as rows are read in. */
    ghost predicate Feeding()
      reads this
    {
      Valid() && forall c :: 0 <= c < |columnMarks| ==> !columnMarks[c].Defer?
    }

    /** Peeling has gone as far as it can: rows on a list have no unmarked column, the others have two or more. */
    ghost predicate SettledRows()
      reads `columnsOf, `columnMarks, `peels, `defers
    {
      forall r :: 0 <= r < |columnsOf| ==>
        if Placed(peels, defers, r) then NoneTodoOf(columnsOf[r], columnMarks)
        else |TodoOf(columnsOf[r], columnMarks)| >= 2
    }

    lemma RowsSettled()
      requires Valid()
      ensures SettledRows()
    {
      forall r | 0 <= r < |columnsOf|
        ensures if Placed(peels, defers, r) then NoneTodoOf(columnsOf[r], columnMarks)
        else |TodoOf(columnsOf[r], columnMarks)| >= 2
      {
        RowSettled(S(), r);
      }
    }

    /** Whether there is room for a row follows from the ids of the rows read in. */
    lemma RoomKnown(id: nat)
      requires Valid()
      ensures |refs| == code.n
      ensures HasRoom(code, ids, id) <==> forall k :: 0 <= k < |RowColumns(code, id)| ==>
        |refs[RowColumns(code, id)[k]]| < REF_LIST_MAX
    {
      hide RowColumns, ValidCode, RowsOk, UseOk, SolvesOk, OrderOk, ListsOk, ReachOk, RefsOf;
      forall c | 0 <= c < code.n ensures |refs[c]| == RefCount(code, ids, c) {
        ListSize(code, ids, columnsOf, refs[c], c);
      }
    }

    /** Read in the row with this id: place it, remember its two unmarked columns, or leave it to
        the avalanches. It fails exactly when one of its columns has no room for a reference. */
    method OpportunisticPeeling(id: nat) returns (ok: bool)
      requires Feeding() && |ids| < code.n
      modifies `ids, `nexts, `counts, `marks, `columnMarks, `uses, `refs, `peelHead, `peelTail, `deferHead,
        `columnsOf, `unreached, `peels, `defers, `position
      ensures Feeding() && |refs| == code.n && SettledRows()
      ensures ok <==> HasRoom(code, old(ids), id)
      ensures if ok then ids == old(ids) + [id] else ids == old(ids) && S() == old(S())
    {
      hide InvBut, Progressed, RowColumns, ValidCode, Listed, Noted, TodoOf, NoRepeat, Placed, TodoSet, Tallied;
      ghost var s := S();
      Sizes(s, {}, {}, {});
      RoomKnown(id);
      var columns := RowColumns(code, id);
      var r := |ids|;
      var unmarked, a, b;
      ok, unmarked, a, b := Reference(r, columns);
      if !ok {
        RowsSettled();
        return;
      }
      Sizes(s, {}, {}, {});
      ReadRow(id, columns, unmarked, a, b, s);
      RowsSettled();
    }

    /** A row whose columns all had room: append it and place it. */
    method ReadRow(id: nat, columns: seq<nat>, unmarked: nat, a: nat, b: nat, ghost s: State)
      requires Known() && |ids| < code.n && columns == RowColumns(code, id)
      requires InvBut(s, {}, {}, {}) && |s.refs| == s.n && |s.columnsOf| < s.n && |s.columnsOf| == |ids|
      requires Tallied(s, {}, {})
      requires S() == s.(refs := Listed(s.refs, columns, |ids|))
      requires forall k :: 0 <= k < |columns| ==> columns[k] < |s.refs| && |s.refs[columns[k]]| < REF_LIST_MAX
      requires forall c :: 0 <= c < |columnMarks| ==> !columnMarks[c].Defer?
      requires Noted(columns, columnMarks, |columns|, unmarked, a, b)
      modifies `ids, `nexts, `counts, `marks, `columnMarks, `uses, `peelHead, `peelTail, `deferHead,
        `columnsOf, `unreached, `peels, `defers, `position
      ensures Feeding() && ids == old(ids) + [id]
    {
      hide InvBut, Progressed, RowColumns, ValidCode, Listed, Noted, TodoOf, NoRepeat, Placed, TodoSet, Tallied;
      Sizes(s, {}, {}, {});
      TallyAppended(s, columns, unmarked, 0, Unmarked(0, 0));
      NotedAll(columns, columnMarks, unmarked, a, b);
      NewRowKeeps(s, columns, unmarked, 0, Unmarked(0, 0));
      AppendRow(id, columns, unmarked);
      ghost var t := S();
      assert t == NewRow(s, columns, unmarked, 0, Unmarked(0, 0));
      PlaceNewRow(|ids| - 1, unmarked, a, b);
      ProgressedFeeding(t, S());
    }

    method AppendRow(id: nat, columns: seq<nat>, unmarked: nat)
      modifies `ids, `nexts, `counts, `marks, `columnsOf, `unreached
      ensures ids == old(ids) + [id] && nexts == old(nexts) + [0] && counts == old(counts) + [unmarked]
      ensures marks == old(marks) + [Unmarked(0, 0)] && columnsOf == old(columnsOf) + [columns]
      ensures unreached == old(unreached) + [Elements(TodoOf(columns, columnMarks))]
    {
      hide TodoOf;
      ids := ids + [id];
      nexts := nexts + [0];
      counts := counts + [unmarked];
      marks := marks + [Unmarked(0, 0)];
      columnsOf := columnsOf + [columns];
      unreached := unreached + [Elements(TodoOf(columns, columnMarks))];
    }

    /** What becomes of the row read in last. */
    method PlaceNewRow(r: nat, unmarked: nat, a: nat, b: nat)
      requires Known() && InvBut(S(), {}, {}, {r}) && r < |ids| && !Placed(peels, defers, r)
      requires r < |counts| == |marks| == |unreached| && counts[r] == unmarked && marks[r].Unmarked?
      requires unreached[r] == Elements(TodoOf(columnsOf[r], columnMarks)) && |unreached[r]| == unmarked
      requires unmarked == |TodoOf(columnsOf[r], columnMarks)|
      requires unmarked == 1 ==> TodoOf(columnsOf[r], columnMarks)[0] == a
      requires unmarked == 2 ==> unreached[r] == {a, b} && IsTodo(columnMarks, a) && IsTodo(columnMarks, b)
      requires Tallied(S(), {r}, {})
      modifies `nexts, `counts, `marks, `columnMarks, `uses, `peelHead, `peelTail, `deferHead,
        `unreached, `peels, `defers, `position
      ensures InvBut(S(), {}, {}, {}) && Progressed(old(S()), S(), {}) && Tallied(S(), {}, {})
    {
      hide InvBut, Progressed, RowColumns, ValidCode, TodoOf, TodoSet, Tallied;
      ghost var s := S();
      Sizes(s, {}, {}, {r});
      if unmarked == 0 {
        PutOff(r, {}, {}, {});
      } else if unmarked == 1 {
        OneTodo(columnsOf[r], columnMarks);
        SolveWithPeel(r, a, {}, {}, {});
      } else {
        ghost var extra: set<nat> := {};
        if unmarked == 2 {
          StoreKeeps(s, {}, {}, r, Unmarked(a, b), a);
          TallyFields(s, r, {}, counts[r], Unmarked(a, b));
          marks := marks[r := Unmarked(a, b)];
          assert s.counts[r := s.counts[r]] == s.counts;
          assert S() == s.(counts := s.counts[r := s.counts[r]], marks := s.marks[r := Unmarked(a, b)]);
          TallyBumped(S(), r, {}, a);
          uses := uses[a := Bumped(uses[a])];
          BumpKeeps(S(), {}, {}, {r}, b);
          TallyBumped(S(), r, {} + {a}, b);
          uses := uses[b := Bumped(uses[b])];
          extra := {} + {a} + {b};
        }
        SettleRow(S(), {}, {}, r);
        TallySettled(S(), r, extra);
        ProgressedSame(s, S(), {});
      }
    }

    // ---------- Greedy peeling ----------

    /** Column c is no better a candidate than column d: fewer weight-two references, or as many
        and fewer references, or as many of both and not after it. */
    ghost predicate NoBetter(c: nat, d: nat)
      requires c < |uses| && d < |uses| && |refs| == |uses| && uses[c].Weight2Refs? && uses[d].Weight2Refs?
      reads `uses, `refs
    {
      || uses[c].refs < uses[d].refs
      || (uses[c].refs == uses[d].refs && (|refs[c]| < |refs[d]| || (|refs[c]| == |refs[d]| && c <= d)))
    }

    ghost predicate Candidates()
      reads `columnMarks, `uses, `refs
    {
      && |columnMarks| == |uses| == |refs| < LIST_TERM
      && (forall c :: 0 <= c < |uses| && columnMarks[c].Todo? ==> uses[c].Weight2Refs?)
    }

    /** The rows with exactly two unmarked columns, one of them c. */
    ghost function RowsOfTwo(c: nat): set<nat>
      reads `columnsOf, `columnMarks
    {
      set r: nat | r < |columnsOf| && |TodoOf(columnsOf[r], columnMarks)| == 2 && c in columnsOf[r]
    }

    /** The two numbers that are compared: how many rows would be down to one column without c, and how many rows
        have c at all. */
    lemma CandidateCounts(c: nat)
      requires Valid() && IsTodo(columnMarks, c)
      ensures c < |uses| && uses[c].Weight2Refs? && uses[c].refs == |RowsOfTwo(c)|
      ensures c < |refs| && |refs[c]| == RefCount(code, ids, c)
    {
      hide RowColumns, ValidCode;
      Sizes(S(), {}, {}, {});
      assert RefsOf(columnsOf, refs[c], c);
      ListSize(code, ids, columnsOf, refs[c], c);
      hide RefsOf, RefCount, InvBut, TodoOf;
      assert TallyAt(S(), c, {}, {});
      forall r: nat | r < |columnsOf| ensures r in RowsOfTwo(c) <==> Waits(S(), r, c) { WaitsMeans(S(), r, c); }
      assert Waiting(S(), c, {}) == RowsOfTwo(c);
    }

    /** The unmarked column with the most weight-two references, then with the most references. */
    method BestColumn() returns (best: nat)
      requires Candidates()
      ensures best == LIST_TERM ==> forall c :: 0 <= c < |columnMarks| ==> !columnMarks[c].Todo?
      ensures best != LIST_TERM ==> IsTodo(columnMarks, best)
      ensures best != LIST_TERM ==> forall c :: 0 <= c < |columnMarks| && columnMarks[c].Todo? ==> NoBetter(c, best)
    {
      best := LIST_TERM;
      var bestRefs, bestCount := 0, 0;
      var c := 0;
      while c < |columnMarks|
        invariant 0 <= c <= |columnMarks|
        invariant best == LIST_TERM ==> bestRefs == bestCount == 0 && forall d :: 0 <= d < c ==> !columnMarks[d].Todo?
        invariant best != LIST_TERM ==>
          best < c && columnMarks[best].Todo? && bestRefs == uses[best].refs
          && bestCount == |refs[best]|
        invariant best != LIST_TERM ==> forall d :: 0 <= d < c && columnMarks[d].Todo? ==> NoBetter(d, best)
      {
        if columnMarks[c].Todo? {
          var w2Refs := uses[c].refs;
          if w2Refs >= bestRefs {
            var rowCount := |refs[c]|;
            if w2Refs > bestRefs || rowCount >= bestCount {
              best, bestRefs, bestCount := c, w2Refs, rowCount;
            }
          }
        }
        c := c + 1;
      }
    }

    /** Every row is on one of the lists, every column solved or deferred, and the deferred columns
        are linked and counted. */
    ghost predicate Peeled()
      reads this
    {
      && Valid() && DeferredColumns()
      && (forall c :: 0 <= c < |columnMarks| ==> !columnMarks[c].Todo?)
    }

    ghost predicate DeferredColumns()
      reads `columnMarks, `nextColumns, `deferColumns, `deferColumnHead, `deferCount
    {
      DeferLinks(columnMarks, nextColumns, deferColumns, deferColumnHead, deferCount)
    }

    lemma CandidatesNow()
      requires Valid()
      ensures Candidates()
    {
      assert |refs| == code.n;
      forall c | 0 <= c < |uses| && columnMarks[c].Todo? ensures uses[c].Weight2Refs? {
        assert UseOf(columnMarks[c], uses[c], peels, position, c, {});
      }
    }

    /** Defer column c, than which none is better: it goes to the front of the deferred columns and peeling resumes
        from it. */
    method DeferColumn(c: nat)
      requires Valid() && DeferredColumns() && IsTodo(columnMarks, c) && Candidates()
      requires forall d :: 0 <= d < |columnMarks| && columnMarks[d].Todo? ==> NoBetter(d, c)
      modifies `nexts, `counts, `marks, `columnMarks, `uses, `peelHead, `peelTail, `deferHead,
        `nextColumns, `deferColumnHead, `deferCount, `unreached, `peels, `defers, `position, `deferColumns
      ensures Valid() && DeferredColumns() && columnsOf == old(columnsOf) && old(peels) <= peels
      ensures |TodoSet(columnMarks)| < |TodoSet(old(columnMarks))| && SettledRows()
    {
      hide InvBut, Progressed, Fresh, TodoSet, Linked, RowColumns, ValidCode, Tallied;
      ghost var s := S();
      DeferColumnKeeps(s, c);
      TallyMarked(s, c, Defer);
      DeferLinksFront(columnMarks, nextColumns, deferColumns, deferColumnHead, deferCount, c);
      assert |nextColumns| == |columnMarks|;
      columnMarks := columnMarks[c := Defer];
      deferCount := deferCount + 1;
      nextColumns := nextColumns[c := deferColumnHead];
      deferColumnHead := c;
      deferColumns := [c] + deferColumns;
      ghost var t := S();
      assert t == s.(columnMarks := s.columnMarks[c := Defer]);
      Sizes(s, {}, {}, {});
      PeelAvalancheOnSolve(c, {c}, {});
      assert {c} - {c} == {};
      ProgressedTodo(t, S(), {});
      ProgressedDefers(t, S());
      DeferLinksSame(t.columnMarks, columnMarks, nextColumns, deferColumns, deferColumnHead, deferCount);
      RowsSettled();
    }

    /** Defer the best column and let the avalanche run, until no column is unmarked. */
    method GreedyPeeling()
      requires Feeding() && |nextColumns| == code.n
      modifies `nexts, `counts, `marks, `columnMarks, `uses, `peelHead, `peelTail, `deferHead,
        `nextColumns, `deferColumnHead, `deferCount, `unreached, `peels, `defers, `position, `deferColumns
      ensures Peeled()
      ensures columnsOf == old(columnsOf) && old(peels) <= peels
    {
      hide InvBut, Known, TodoSet, DeferLinks, Tallied;
      Sizes(S(), {}, {}, {});
      deferColumnHead := LIST_TERM;
      deferCount := 0;
      deferColumns := [];
      DeferLinksNone(columnMarks, nextColumns);
      while true
        invariant Valid() && DeferredColumns() && columnsOf == old(columnsOf) && old(peels) <= peels
        decreases |TodoSet(columnMarks)|
      {
        CandidatesNow();
        var best := BestColumn();
        if best == LIST_TERM {
          break;
        }
        DeferColumn(best);
      }
    }

    /** With as many rows as columns, as many rows are deferred as columns. */
    lemma DeferredBalance()
      requires Peeled() && |ids| == code.n
      ensures |defers| == deferCount
      ensures forall r :: 0 <= r < |ids| ==> (r in peels <==> r !in defers)
    {
      hide RowColumns, ValidCode, RefsOk, SolvesOk, OrderOk, UseOk, RowsOk, ReachOk;
      AllPlaced(S());
      ColumnsPlaced(S(), deferColumns);
      forall r | 0 <= r < |ids| ensures r in peels <==> r !in defers {
        assert Placed(peels, defers, r);
        if r in peels { assert Disjoint(peels, defers); }
      }
    }
  }
}

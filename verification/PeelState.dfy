/** Stage 1, the data: sparse rows and columns, reference lists, and the two lists into which
    peeling sorts the rows. A snapshot also records what the avalanche has not reached yet. */
module PeelState {
  import opened Finite
  import opened Rows

  const LIST_TERM: nat := 0xffff
  const REF_LIST_MAX: nat := 32
  const MAX_N: nat := 64000

  /** The union over a row: its last two unmarked columns, or its result. */
  datatype Marks = Unmarked(first: nat, second: nat) | Result(column: nat, copied: bool)

  datatype Mark = Todo | Peel | Defer

  /** The union over a column: candidate weight, the row that solves it, or its GE column. */
  datatype Use = Weight2Refs(refs: nat) | SolvedBy(row: nat) | GEColumn(column: nat)

  function Dec16(x: nat): nat { (x + 0xffff) % 0x1_0000 }

  /** Everything peeling works on, each field of the row and column records as a sequence.
      The second group is what the links and counters stand for: unreached[r] holds the columns
      of row r that are unmarked or whose avalanche has not come to r, position[c] is where on
      the peeled list the row solving c stands. */
  datatype State = State(
    n: nat,
    nexts: seq<nat>, counts: seq<nat>, marks: seq<Marks>,
    columnMarks: seq<Mark>, uses: seq<Use>, refs: seq<seq<nat>>,
    peelHead: nat, peelTail: nat, deferHead: nat,
    columnsOf: seq<seq<nat>>, unreached: seq<set<nat>>,
    peels: seq<nat>, defers: seq<nat>, position: map<nat, nat>)

  // ---------- Invariants ----------

  ghost predicate RowShape(n: nat, columns: seq<nat>) {
    |columns| <= MAX_WEIGHT && NoRepeat(columns) && forall k :: 0 <= k < |columns| ==> columns[k] < n
  }

  ghost predicate Sized(s: State) {
    && s.n <= MAX_N && |s.columnMarks| == |s.uses| == s.n
    && |s.columnsOf| <= s.n && |s.nexts| == |s.counts| == |s.marks| == |s.unreached| == |s.columnsOf|
    && (forall r :: 0 <= r < |s.columnsOf| ==> RowShape(s.n, s.columnsOf[r]))
  }

  /** The rows listed under column c are those that contain it, each once. */
  ghost predicate RefsOf(columnsOf: seq<seq<nat>>, list: seq<nat>, c: nat) {
    && NoRepeat(list) && |list| <= REF_LIST_MAX
    && (forall k :: 0 <= k < |list| ==> list[k] < |columnsOf| && c in columnsOf[list[k]])
    && (forall r :: 0 <= r < |columnsOf| && c in columnsOf[r] ==> r in list)
  }

  ghost predicate RefsOk(n: nat, columnsOf: seq<seq<nat>>, refs: seq<seq<nat>>) {
    |refs| == n && forall c :: 0 <= c < n ==> RefsOf(columnsOf, refs[c], c)
  }

  /** How many rows with these ids have column c. */
  function RefCount(code: Code, ids: seq<nat>, c: nat): (r: nat)
    requires ValidCode(code)
    ensures r <= |ids|
  {
    if ids == [] then 0
    else
      var k := |ids| - 1;
      RefCount(code, ids[..k], c) + if c in RowColumns(code, ids[k]) then 1 else 0
  }

  /** After the rows with these ids, no list that a row with this id has to be entered in is full. */
  predicate HasRoom(code: Code, ids: seq<nat>, id: nat)
    requires ValidCode(code)
  {
    forall c :: c in RowColumns(code, id) ==> RefCount(code, ids, c) < REF_LIST_MAX
  }

  ghost function RefSet(columnsOf: seq<seq<nat>>, c: nat): set<nat> {
    set r: nat | r < |columnsOf| && c in columnsOf[r]
  }

  lemma {:induction false} RefSetSize(code: Code, ids: seq<nat>, columnsOf: seq<seq<nat>>, c: nat)
    requires ValidCode(code) && |ids| == |columnsOf|
    requires forall r :: 0 <= r < |ids| ==> columnsOf[r] == RowColumns(code, ids[r])
    ensures |RefSet(columnsOf, c)| == RefCount(code, ids, c)
  {
    hide RowColumns, ValidCode;
    if ids == [] {
      assert RefSet(columnsOf, c) == {};
    } else {
      var k: nat := |ids| - 1;
      RefSetSize(code, ids[..k], columnsOf[..k], c);
      var rest := RefSet(columnsOf[..k], c);
      assert RefSet(columnsOf, c) == if c in columnsOf[k] then rest + {k} else rest;
    }
  }

  /** Every row is entered once in the list of each of its columns, so the lists follow from the ids. */
  lemma ListSize(code: Code, ids: seq<nat>, columnsOf: seq<seq<nat>>, list: seq<nat>, c: nat)
    requires ValidCode(code) && |ids| == |columnsOf| && RefsOf(columnsOf, list, c)
    requires forall r :: 0 <= r < |ids| ==> columnsOf[r] == RowColumns(code, ids[r])
    ensures |list| == RefCount(code, ids, c)
  {
    hide RowColumns, ValidCode;
    RefSetSize(code, ids, columnsOf, c);
    ElementsSize(list);
    assert Elements(list) == RefSet(columnsOf, c);
  }

  ghost predicate IsTodo(cm: seq<Mark>, c: nat) {
    c < |cm| && cm[c].Todo?
  }

  ghost predicate IsPeeled(cm: seq<Mark>, c: nat) {
    c < |cm| && cm[c].Peel?
  }

  /** flight holds the marked columns whose avalanche is still running. */
  ghost predicate ReachOf(cm: seq<Mark>, columns: seq<nat>, left: set<nat>, flight: set<nat>) {
    && (forall c :: c in left ==> c in columns && (IsTodo(cm, c) || c in flight))
    && (forall c :: c in columns && IsTodo(cm, c) ==> c in left)
  }

  ghost predicate ReachOk(columnsOf: seq<seq<nat>>, cm: seq<Mark>, unreached: seq<set<nat>>, flight: set<nat>) {
    && |unreached| == |columnsOf|
    && (forall r :: 0 <= r < |columnsOf| ==> ReachOf(cm, columnsOf[r], unreached[r], flight))
  }

  ghost predicate Linked(nexts: seq<nat>, list: seq<nat>, head: nat) {
    && NoRepeat(list)
    && (forall i :: 0 <= i < |list| ==> list[i] < |nexts|)
    && head == (if list == [] then LIST_TERM else list[0])
    && (forall i :: 0 <= i < |list| ==> nexts[list[i]] == if i + 1 < |list| then list[i + 1] else LIST_TERM)
  }

  ghost predicate Disjoint(a: seq<nat>, b: seq<nat>) {
    forall i :: 0 <= i < |a| ==> a[i] !in b
  }

  ghost predicate ListsOk(nexts: seq<nat>, peels: seq<nat>, defers: seq<nat>, peelHead: nat, peelTail: nat,
    deferHead: nat) {
    && |nexts| < LIST_TERM
    && Linked(nexts, peels, peelHead) && Linked(nexts, defers, deferHead)
    && peelTail == (if peels == [] then LIST_TERM else peels[|peels| - 1])
    && Disjoint(peels, defers)
  }

  /** Row r, the i-th of the peeled list, has its result, a column of its own standing there. */
  ghost predicate SolvesAt(columnsOf: seq<seq<nat>>, marks: seq<Marks>, position: map<nat, nat>, r: nat, i: nat) {
    && r < |marks| == |columnsOf| && marks[r].Result? && !marks[r].copied
    && marks[r].column in columnsOf[r]
    && marks[r].column in position && position[marks[r].column] == i
  }

  /** Peeled columns and peeled rows are in bijection. */
  ghost predicate SolvesOk(columnsOf: seq<seq<nat>>, cm: seq<Mark>, marks: seq<Marks>, peels: seq<nat>,
    position: map<nat, nat>) {
    && (forall i :: 0 <= i < |peels| ==> SolvesAt(columnsOf, marks, position, peels[i], i))
    && (forall c :: 0 <= c < |cm| && cm[c].Peel? ==> c in position)
    && (forall c :: c in position ==>
          && c < |cm| && cm[c].Peel? && position[c] < |peels|
          && peels[position[c]] < |marks| && marks[peels[position[c]]].Result? && marks[peels[position[c]]].column == c)
  }

  /** Column c is no obstacle to solving the i-th peeled row: it is deferred or solved before. */
  ghost predicate Before(cm: seq<Mark>, position: map<nat, nat>, c: nat, i: nat) {
    (c < |cm| && cm[c].Defer?) || (c in position && position[c] < i)
  }

  ghost predicate OrderAt(columns: seq<nat>, cm: seq<Mark>, position: map<nat, nat>, solved: nat, i: nat) {
    forall c :: c in columns && c != solved ==> Before(cm, position, c, i)
  }

  /** Every other column of a peeled row is deferred or solved by an earlier row. */
  ghost predicate OrderOk(columnsOf: seq<seq<nat>>, cm: seq<Mark>, marks: seq<Marks>, peels: seq<nat>,
    position: map<nat, nat>) {
    forall i :: 0 <= i < |peels| ==>
      && peels[i] < |columnsOf| && peels[i] < |marks| && marks[peels[i]].Result?
      && OrderAt(columnsOf[peels[i]], cm, position, marks[peels[i]].column, i)
  }

  /** Which field of the union over a column is current; in pending columns the solver is not
      written yet. */
  ghost predicate UseOf(mark: Mark, use: Use, peels: seq<nat>, position: map<nat, nat>, c: nat, pending: set<nat>) {
    match mark
    case Todo => use.Weight2Refs?
    case Peel => c in pending || (c in position && position[c] < |peels| && use == SolvedBy(peels[position[c]]))
    case Defer => use.Weight2Refs?
  }

  ghost predicate UseOk(cm: seq<Mark>, uses: seq<Use>, peels: seq<nat>, position: map<nat, nat>, pending: set<nat>) {
    |uses| == |cm| && forall c :: 0 <= c < |cm| ==> UseOf(cm[c], uses[c], peels, position, c, pending)
  }

  /** The counter of a row on a list, wrapped as it is once peeling has zeroed it early. */
  ghost predicate PlacedCount(count: nat, left: nat) {
    || (left <= 1 && count == left)
    || (left <= 2 && count == (left + 0xfffe) % 0x1_0000)
  }

  /** The counter of a row not yet listed is exact, and at two the row knows the two columns. */
  ghost predicate FreeCount(count: nat, marks: Marks, left: set<nat>) {
    && count == |left| >= 2 && marks.Unmarked?
    && (count == 2 ==> left == {marks.first, marks.second})
  }

  ghost predicate RowOk(count: nat, marks: Marks, left: set<nat>, placed: bool) {
    if placed then PlacedCount(count, |left|) else FreeCount(count, marks, left)
  }

  ghost predicate Placed(peels: seq<nat>, defers: seq<nat>, r: nat) {
    r in peels || r in defers
  }

  ghost predicate RowsOk(counts: seq<nat>, marks: seq<Marks>, unreached: seq<set<nat>>, peels: seq<nat>,
    defers: seq<nat>, but: set<nat>) {
    && |counts| == |marks| == |unreached|
    && (forall r :: 0 <= r < |counts| && r !in but ==> RowOk(counts[r], marks[r], unreached[r],
      Placed(peels, defers, r)))
  }

  ghost predicate NoneTodoOf(columns: seq<nat>, cm: seq<Mark>) {
    forall c :: c in columns ==> !IsTodo(cm, c)
  }

  /** A row is deferred only when there is no column left that it could solve. */
  ghost predicate DefersOk(columnsOf: seq<seq<nat>>, cm: seq<Mark>, defers: seq<nat>) {
    forall r :: r in defers && r < |columnsOf| ==> NoneTodoOf(columnsOf[r], cm)
  }

  /** The invariant of peeling, for all rows but those in but. */
  ghost predicate InvBut(s: State, flight: set<nat>, pending: set<nat>, but: set<nat>) {
    && Sized(s) && RefsOk(s.n, s.columnsOf, s.refs)
    && ReachOk(s.columnsOf, s.columnMarks, s.unreached, flight)
    && ListsOk(s.nexts, s.peels, s.defers, s.peelHead, s.peelTail, s.deferHead)
    && SolvesOk(s.columnsOf, s.columnMarks, s.marks, s.peels, s.position)
    && OrderOk(s.columnsOf, s.columnMarks, s.marks, s.peels, s.position)
    && UseOk(s.columnMarks, s.uses, s.peels, s.position, pending)
    && RowsOk(s.counts, s.marks, s.unreached, s.peels, s.defers, but)
    && DefersOk(s.columnsOf, s.columnMarks, s.defers)
  }

  /** Marks only go from unmarked to peeled, and columns in flight stay unreached where they were. */
  ghost predicate Marking(cm: seq<Mark>, cm': seq<Mark>) {
    |cm'| == |cm| && forall c :: 0 <= c < |cm| ==> cm'[c] == cm[c] || (cm[c].Todo? && cm'[c].Peel?)
  }

  ghost predicate Kept(u: seq<set<nat>>, u': seq<set<nat>>, flight: set<nat>) {
    |u'| == |u| && forall r, c :: 0 <= r < |u| && c in flight ==> (c in u'[r] <==> c in u[r])
  }

  ghost predicate Extends(position: map<nat, nat>, position': map<nat, nat>) {
    forall c :: c in position ==> c in position' && position'[c] == position[c]
  }

  /** What a step of peeling may change, seen by the avalanches that are still running. */
  ghost predicate Progressed(s: State, t: State, flight: set<nat>) {
    && t.n == s.n && t.columnsOf == s.columnsOf && t.refs == s.refs
    && Marking(s.columnMarks, t.columnMarks) && Kept(s.unreached, t.unreached, flight)
    && s.peels <= t.peels && Extends(s.position, t.position)
  }

  lemma ProgressedSame(s: State, t: State, flight: set<nat>)
    requires t == s.(counts := t.counts, marks := t.marks, uses := t.uses)
    ensures Progressed(s, t, flight)
  {}

  lemma ProgressedTrans(s: State, t: State, u: State, flight: set<nat>)
    requires Progressed(s, t, flight) && Progressed(t, u, flight)
    ensures Progressed(s, u, flight)
  {}

  ghost function TodoSet(cm: seq<Mark>): set<nat> {
    set c: nat | c < |cm| && cm[c].Todo?
  }

  lemma TodoShrinks(cm: seq<Mark>, cm': seq<Mark>)
    requires Marking(cm, cm')
    ensures |TodoSet(cm')| <= |TodoSet(cm)|
  {
    assert TodoSet(cm') <= TodoSet(cm);
    SubsetSize(TodoSet(cm'), TodoSet(cm));
  }

  lemma TodoDrops(cm: seq<Mark>, c: nat, mark: Mark)
    requires c < |cm| && cm[c].Todo? && !mark.Todo?
    ensures |TodoSet(cm[c := mark])| == |TodoSet(cm)| - 1
  {
    assert TodoSet(cm[c := mark]) == TodoSet(cm) - {c};
  }

  lemma Sizes(s: State, flight: set<nat>, pending: set<nat>, but: set<nat>)
    requires InvBut(s, flight, pending, but)
    ensures |s.columnMarks| == |s.uses| == |s.refs| == s.n
    ensures |s.nexts| == |s.counts| == |s.marks| == |s.unreached| == |s.columnsOf|
    ensures s.peelTail == LIST_TERM || s.peelTail < |s.nexts|
  {}

  // ---------- Steps ----------

  /** The avalanche of column c comes to row r. */
  function Reach(s: State, r: nat, c: nat): State
    requires r < |s.counts| && r < |s.unreached|
  {
    s.(counts := s.counts[r := Dec16(s.counts[r])], unreached := s.unreached[r := s.unreached[r] - {c}])
  }

  /** Row r goes to the front of the deferred list. */
  function DeferRow(s: State, r: nat): State
    requires r < |s.nexts|
  {
    s.(nexts := s.nexts[r := s.deferHead], deferHead := r, defers := [r] + s.defers)
  }

  /** Link row r behind the tail of a list. */
  function AppendLink(nexts: seq<nat>, tail: nat, r: nat): (t: seq<nat>)
    requires r < |nexts| && (tail == LIST_TERM || tail < |nexts|)
    ensures |t| == |nexts|
  {
    (if tail == LIST_TERM then nexts else nexts[tail := r])[r := LIST_TERM]
  }

  /** Row r solves column c and goes to the back of the peeled list. */
  function SolveRow(s: State, r: nat, c: nat): State
    requires r < |s.nexts| == |s.marks| && c < |s.columnMarks| && (s.peelTail == LIST_TERM || s.peelTail < |s.nexts|)
  {
    s.(columnMarks := s.columnMarks[c := Peel],
       marks := s.marks[r := Result(c, false)],
       nexts := AppendLink(s.nexts, s.peelTail, r),
       peelHead := if s.peelTail == LIST_TERM then r else s.peelHead,
       peelTail := r,
       peels := s.peels + [r],
       position := s.position[c := |s.peels|])
  }

  function Bumped(use: Use): Use
    requires use.Weight2Refs?
  {
    Weight2Refs((use.refs + 1) % 0x1_0000)
  }

  lemma CardMinus(u: set<nat>, c: nat)
    requires c in u
    ensures |u - {c}| == |u| - 1
  {}

  lemma PairMinus(u: set<nat>, a: nat, b: nat, c: nat)
    requires u == {a, b} && |u| == 2 && c in u
    ensures a != b && u - {c} == {if a == c then b else a}
  {
    assert a == b ==> u == {a};
  }

  /** Reaching a row never takes a listed row back to one or two; an unlisted row keeps an
      exact count, and at one its remaining column is the other of the two it remembers. */
  lemma ReachCount(count: nat, marks: Marks, left: set<nat>, placed: bool, c: nat)
    requires RowOk(count, marks, left, placed) && c in left && |left| <= MAX_WEIGHT
    ensures var k, u := Dec16(count), left - {c};
      if placed then RowOk(k, marks, u, placed) && k != 1 && k != 2
      else
        && k == |u| >= 1 && marks.Unmarked?
        && (k == 1 ==> u == {if marks.first == c then marks.second else marks.first})
        && (k > 2 ==> RowOk(k, marks, u, placed))
  {
    CardMinus(left, c);
    if !placed && count == 2 {
      PairMinus(left, marks.first, marks.second, c);
    }
  }

  lemma ReachKeeps(s: State, flight: set<nat>, pending: set<nat>, r: nat, c: nat)
    requires InvBut(s, flight, pending, {}) && r < |s.counts| && c in s.unreached[r]
    requires c in flight && !IsTodo(s.columnMarks, c)
    ensures InvBut(Reach(s, r, c), flight, pending, {r})
    ensures Progressed(s, Reach(s, r, c), flight - {c})
    ensures RowOk(s.counts[r], s.marks[r], s.unreached[r], Placed(s.peels, s.defers, r))
    ensures |s.unreached[r]| <= MAX_WEIGHT
  {
    hide RefsOk, ListsOk, SolvesOk, OrderOk, UseOk, RowOk, RowShape, Placed;
    var t := Reach(s, r, c);
    assert ReachOf(s.columnMarks, s.columnsOf[r], s.unreached[r], flight);
    LeftSize(s.columnMarks, s.columnsOf[r], s.unreached[r], flight, s.n);
  }

  lemma LeftSize(cm: seq<Mark>, columns: seq<nat>, left: set<nat>, flight: set<nat>, n: nat)
    requires ReachOf(cm, columns, left, flight) && RowShape(n, columns)
    ensures |left| <= MAX_WEIGHT
  {
    ElementsSize(columns);
    SubsetSize(left, Elements(columns));
  }

  lemma AfterReach(s: State, t: State, u: State, r: nat, c: nat, flight: set<nat>)
    requires r < |s.counts| && r < |s.unreached| && t == Reach(s, r, c)
    requires Progressed(s, t, flight - {c}) && Progressed(t, u, flight) && c in flight
    ensures Progressed(s, u, flight - {c}) && |u.unreached| == |s.unreached|
    ensures forall q :: 0 <= q < |s.unreached| ==> (c in u.unreached[q] <==> c in s.unreached[q] && q != r)
  {}

  lemma AfterSolve(t: State, u: State, r: nat, c: nat, flight: set<nat>)
    requires c in t.position && t.position[c] < |t.peels| && t.peels[t.position[c]] == r
    requires IsPeeled(t.columnMarks, c) && Progressed(t, u, flight)
    ensures IsPeeled(u.columnMarks, c)
    ensures c in u.position && u.position[c] < |u.peels| && u.peels[u.position[c]] == r
  {}

  lemma ProgressedFeeding(s: State, t: State)
    requires Progressed(s, t, {})
    requires forall c :: 0 <= c < |s.columnMarks| ==> !s.columnMarks[c].Defer?
    ensures t.columnsOf == s.columnsOf && t.refs == s.refs
    ensures forall c :: 0 <= c < |t.columnMarks| ==> !t.columnMarks[c].Defer?
  {}

  lemma ProgressedDefers(s: State, t: State)
    requires Progressed(s, t, {})
    ensures |t.columnMarks| == |s.columnMarks| && t.columnsOf == s.columnsOf && s.peels <= t.peels
    ensures forall c :: 0 <= c < |t.columnMarks| ==> t.columnMarks[c].Defer? == s.columnMarks[c].Defer?
  {}

  lemma ProgressedTodo(s: State, t: State, flight: set<nat>)
    requires Progressed(s, t, flight)
    ensures |TodoSet(t.columnMarks)| <= |TodoSet(s.columnMarks)|
    ensures t.refs == s.refs && t.columnsOf == s.columnsOf
  {
    TodoShrinks(s.columnMarks, t.columnMarks);
  }

  lemma ProgressedMarked(s: State, t: State, flight: set<nat>, columns: set<nat>)
    requires Progressed(s, t, flight)
    requires forall c :: c in columns ==> !IsTodo(s.columnMarks, c)
    ensures forall c :: c in columns ==> !IsTodo(t.columnMarks, c)
  {}

  /** A marked column none of whose rows has been reached is unreached in just the rows listed under it. */
  lemma FreshRefs(s: State, flight: set<nat>, pending: set<nat>, c: nat)
    requires InvBut(s, flight, pending, {}) && c < s.n && Fresh(s, c)
    ensures |s.refs| == s.n && |s.unreached| == |s.columnsOf| && NoRepeat(s.refs[c])
    ensures forall q :: 0 <= q < |s.unreached| ==> (c in s.unreached[q] <==> q in s.refs[c][0..])
    ensures forall k :: 0 <= k < |s.refs[c]| ==> s.refs[c][k] < |s.unreached|
  {
    hide ListsOk, SolvesOk, OrderOk, UseOk, RowsOk, RowShape;
    assert RefsOf(s.columnsOf, s.refs[c], c);
    assert s.refs[c][0..] == s.refs[c];
    forall q | 0 <= q < |s.unreached| ensures c in s.unreached[q] <==> q in s.refs[c] {
      assert ReachOf(s.columnMarks, s.columnsOf[q], s.unreached[q], flight);
    }
  }

  lemma NextRef(list: seq<nat>, k: nat)
    requires NoRepeat(list) && k < |list|
    ensures forall q :: q in list[k + 1..] <==> q in list[k..] && q != list[k]
    ensures list[k] in list[k..]
  {
    assert list[k..] == [list[k]] + list[k + 1..];
  }

  /** Outside an avalanche, a row on a list has no unmarked column, and a row on none has two or more. */
  lemma RowSettled(s: State, r: nat)
    requires InvBut(s, {}, {}, {}) && r < |s.columnsOf|
    ensures r < |s.counts| == |s.columnsOf|
    ensures if Placed(s.peels, s.defers, r) then NoneTodoOf(s.columnsOf[r], s.columnMarks)
      else |TodoOf(s.columnsOf[r], s.columnMarks)| >= 2
  {
    hide RefsOk, ListsOk, UseOk;
    var columns, cm := s.columnsOf[r], s.columnMarks;
    assert ReachOf(cm, columns, s.unreached[r], {}) && RowShape(s.n, columns);
    if r in s.peels {
      var i :| 0 <= i < |s.peels| && s.peels[i] == r;
      assert SolvesAt(s.columnsOf, s.marks, s.position, r, i) && OrderAt(columns, cm, s.position, s.marks[r].column, i);
    } else if r !in s.defers {
      assert RowOk(s.counts[r], s.marks[r], s.unreached[r], Placed(s.peels, s.defers, r));
      assert Elements(TodoOf(columns, cm)) == s.unreached[r];
      ElementsSize(TodoOf(columns, cm));
    }
  }

  lemma OneTodo(columns: seq<nat>, cm: seq<Mark>)
    requires |TodoOf(columns, cm)| == 1
    ensures var c := TodoOf(columns, cm)[0];
      c in columns && IsTodo(cm, c) && forall x :: x in columns && x != c ==> !IsTodo(cm, x)
  {
    var t := TodoOf(columns, cm);
    assert t[0] in t;
    forall x | x in columns && IsTodo(cm, x) ensures x == t[0] {
      assert x in t;
    }
  }

  lemma SettleRow(s: State, flight: set<nat>, pending: set<nat>, r: nat)
    requires InvBut(s, flight, pending, {r}) && r < |s.counts|
    requires RowOk(s.counts[r], s.marks[r], s.unreached[r], Placed(s.peels, s.defers, r))
    ensures InvBut(s, flight, pending, {})
  {
    hide RefsOk, ListsOk, SolvesOk, OrderOk, UseOk, RowOk, RowShape, Placed, ReachOk;
  }

  /** Deferring a row that is on neither list. */
  lemma DeferKeeps(s: State, flight: set<nat>, pending: set<nat>, r: nat)
    requires InvBut(s, flight, pending, {r}) && r < |s.counts| && !Placed(s.peels, s.defers, r)
    requires PlacedCount(s.counts[r], |s.unreached[r]|) && NoneTodoOf(s.columnsOf[r], s.columnMarks)
    ensures InvBut(DeferRow(s, r), flight, pending, {})
    ensures Progressed(s, DeferRow(s, r), flight)
  {
    hide RefsOk, SolvesOk, OrderOk, UseOk, RowShape, ReachOk, FreeCount, PlacedCount;
    var t := DeferRow(s, r);
    LinkedFront(s.nexts, s.defers, s.deferHead, r);
    LinkedOther(s.nexts, t.nexts, s.peels, s.peelHead);
    forall q | 0 <= q < |t.counts| ensures RowOk(t.counts[q], t.marks[q], t.unreached[q],
      Placed(t.peels, t.defers, q)) {
      assert Placed(t.peels, t.defers, q) == (q == r || Placed(s.peels, s.defers, q));
    }
  }

  lemma LinkedFront(nexts: seq<nat>, list: seq<nat>, head: nat, r: nat)
    requires Linked(nexts, list, head) && r < |nexts| && r !in list
    ensures Linked(nexts[r := head], [r] + list, r)
  {
    var nexts', list' := nexts[r := head], [r] + list;
    forall i, j | 0 <= i < j < |list'| ensures list'[i] != list'[j] {
      assert list'[j] == list[j - 1] && list[j - 1] in list;
      assert i > 0 ==> list'[i] == list[i - 1];
    }
    forall i | 0 <= i < |list'|
      ensures list'[i] < |nexts| && nexts'[list'[i]] == if i + 1 < |list'| then list'[i + 1] else LIST_TERM
    {
      if i > 0 {
        var k := i - 1;
        assert list'[i] == list[k] && list[k] in list && list[k] != r;
        assert nexts[list[k]] == if k + 1 < |list| then list[k + 1] else LIST_TERM;
        if i + 1 < |list'| { assert list'[i + 1] == list[k + 1]; }
      } else {
        assert |list| > 0 ==> list'[1] == list[0];
      }
    }
    assert NoRepeat(list');
    assert list' != [] && list'[0] == r;
    assert forall i :: 0 <= i < |list'| ==> list'[i] < |nexts'|;
    assert forall i :: 0 <= i < |list'| ==> nexts'[list'[i]] == if i + 1 < |list'| then list'[i + 1] else LIST_TERM;
    assert Linked(nexts', list', r);
  }

  lemma LinkedOther(nexts: seq<nat>, nexts': seq<nat>, list: seq<nat>, head: nat)
    requires Linked(nexts, list, head) && |nexts'| == |nexts|
    requires forall r :: 0 <= r < |nexts| && r in list ==> nexts'[r] == nexts[r]
    ensures Linked(nexts', list, head)
  {}

  /** The links after a row joins the back of the peeled list. */
  lemma SolveLists(s: State, r: nat, c: nat)
    requires ListsOk(s.nexts, s.peels, s.defers, s.peelHead, s.peelTail, s.deferHead)
    requires r < |s.nexts| == |s.marks| && c < |s.columnMarks| && !Placed(s.peels, s.defers, r)
    ensures s.peelTail == LIST_TERM || s.peelTail < |s.nexts|
    ensures var t := SolveRow(s, r, c); ListsOk(t.nexts, t.peels, t.defers, t.peelHead, t.peelTail, t.deferHead)
  {
    var t := SolveRow(s, r, c);
    forall i | 0 <= i < |t.peels| ensures t.peels[i] < |t.nexts|
      && t.nexts[t.peels[i]] == if i + 1 < |t.peels| then t.peels[i + 1] else LIST_TERM
    {
      if i < |s.peels| { assert t.peels[i] == s.peels[i]; }
    }
    assert Linked(t.nexts, t.peels, t.peelHead);
    assert s.peels != [] ==> s.peelTail !in s.defers;
    LinkedOther(s.nexts, t.nexts, s.defers, s.deferHead);
  }

  lemma SolveSolves(s: State, r: nat, c: nat)
    requires |s.marks| == |s.columnsOf| && r < |s.marks| && c < |s.columnMarks| && s.columnMarks[c].Todo?
    requires r !in s.peels && c in s.columnsOf[r]
    requires SolvesOk(s.columnsOf, s.columnMarks, s.marks, s.peels, s.position)
    ensures SolvesOk(s.columnsOf, s.columnMarks[c := Peel], s.marks[r := Result(c, false)], s.peels + [r],
      s.position[c := |s.peels|])
    ensures c !in s.position
  {
    var peels, marks, position := s.peels + [r], s.marks[r := Result(c, false)], s.position[c := |s.peels|];
    assert c !in s.position;
    forall i | 0 <= i < |peels| ensures SolvesAt(s.columnsOf, marks, position, peels[i], i) {
      if i < |s.peels| {
        assert SolvesAt(s.columnsOf, s.marks, s.position, s.peels[i], i);
      }
    }
  }

  lemma SolveOrder(s: State, r: nat, c: nat)
    requires |s.marks| == |s.columnsOf| && r < |s.marks| && c < |s.columnMarks| && s.columnMarks[c].Todo?
    requires r !in s.peels && c !in s.position
    requires SolvesOk(s.columnsOf, s.columnMarks, s.marks, s.peels, s.position)
    requires OrderOk(s.columnsOf, s.columnMarks, s.marks, s.peels, s.position)
    requires forall x :: x in s.columnsOf[r] ==> x < |s.columnMarks| && (x != c ==> !s.columnMarks[x].Todo?)
    ensures OrderOk(s.columnsOf, s.columnMarks[c := Peel], s.marks[r := Result(c, false)], s.peels + [r],
      s.position[c := |s.peels|])
  {
    hide SolvesAt;
    var cm, peels, marks, position := s.columnMarks[c := Peel], s.peels + [r], s.marks[r := Result(c, false)],
      s.position[c := |s.peels|];
    forall i | 0 <= i < |peels| ensures
      && peels[i] < |s.columnsOf| && marks[peels[i]].Result?
      && OrderAt(s.columnsOf[peels[i]], cm, position, marks[peels[i]].column, i)
    {
      if i < |s.peels| {
        var q := s.peels[i];
        assert peels[i] == q && q != r;
        assert OrderAt(s.columnsOf[q], s.columnMarks, s.position, s.marks[q].column, i);
        forall x | x in s.columnsOf[q] && x != marks[q].column ensures Before(cm, position, x, i) {
          assert Before(s.columnMarks, s.position, x, i);
        }
      } else {
        forall x | x in s.columnsOf[r] && x != c ensures Before(cm, position, x, i) {}
      }
    }
  }

  lemma SolveUse(s: State, r: nat, c: nat, pending: set<nat>)
    requires c < |s.columnMarks| && c !in s.position
    requires UseOk(s.columnMarks, s.uses, s.peels, s.position, pending)
    ensures UseOk(s.columnMarks[c := Peel], s.uses, s.peels + [r], s.position[c := |s.peels|], pending + {c})
  {
    forall x | 0 <= x < |s.columnMarks|
      ensures UseOf(s.columnMarks[c := Peel][x], s.uses[x], s.peels + [r], s.position[c := |s.peels|], x, pending + {c})
    {
      assert UseOf(s.columnMarks[x], s.uses[x], s.peels, s.position, x, pending);
    }
  }

  /** Solving a row that is on neither list and whose other columns are all marked. */
  lemma SolveKeeps(s: State, flight: set<nat>, pending: set<nat>, r: nat, c: nat)
    requires InvBut(s, flight, pending, {r}) && r < |s.counts| && !Placed(s.peels, s.defers, r)
    requires PlacedCount(s.counts[r], |s.unreached[r]|)
    requires IsTodo(s.columnMarks, c) && c in s.columnsOf[r]
    requires forall x :: x in s.columnsOf[r] && x != c ==> !IsTodo(s.columnMarks, x)
    ensures s.peelTail == LIST_TERM || s.peelTail < |s.nexts|
    ensures InvBut(SolveRow(s, r, c), flight + {c}, pending + {c}, {})
    ensures Progressed(s, SolveRow(s, r, c), flight)
    ensures Fresh(SolveRow(s, r, c), c)
  {
    hide RefsOk, ListsOk, SolvesOk, OrderOk, UseOk, NoRepeat;
    SolveLists(s, r, c);
    var t := SolveRow(s, r, c);
    assert RowShape(s.n, s.columnsOf[r]);
    SolveSolves(s, r, c);
    SolveOrder(s, r, c);
    SolveUse(s, r, c, pending);
    forall q | 0 <= q < |s.columnsOf| ensures ReachOf(t.columnMarks, t.columnsOf[q], t.unreached[q], flight + {c}) {
      assert ReachOf(s.columnMarks, s.columnsOf[q], s.unreached[q], flight);
    }
    forall q | 0 <= q < |t.counts| ensures RowOk(t.counts[q], t.marks[q], t.unreached[q],
      Placed(t.peels, t.defers, q)) {
      assert Placed(t.peels, t.defers, q) == (q == r || Placed(s.peels, s.defers, q));
    }
  }

  lemma SolveRowFacts(s: State, r: nat, c: nat)
    requires r < |s.nexts| == |s.marks| && IsTodo(s.columnMarks, c)
      && (s.peelTail == LIST_TERM || s.peelTail < |s.nexts|)
    ensures var t := SolveRow(s, r, c);
      && IsPeeled(t.columnMarks, c) && |TodoSet(t.columnMarks)| < |TodoSet(s.columnMarks)|
      && c in t.position && t.position[c] < |t.peels| && t.peels[t.position[c]] == r
      && (forall x :: IsTodo(t.columnMarks, x) ==> IsTodo(s.columnMarks, x) && x != c)
  {
    hide TodoSet;
    TodoDrops(s.columnMarks, c, Peel);
  }

  /** No row has been reached by the avalanche of column c. */
  ghost predicate Fresh(s: State, c: nat) {
    forall r :: 0 <= r < |s.columnsOf| && r < |s.unreached| && c in s.columnsOf[r] ==> c in s.unreached[r]
  }

  /** The avalanche of c has reached every row. */
  lemma LandFlight(s: State, flight: set<nat>, pending: set<nat>, c: nat)
    requires InvBut(s, flight, pending, {})
    requires forall r :: 0 <= r < |s.unreached| ==> c !in s.unreached[r]
    ensures InvBut(s, flight - {c}, pending, {})
  {
    hide RefsOk, ListsOk, SolvesOk, OrderOk, UseOk, RowsOk, RowShape;
    forall q | 0 <= q < |s.columnsOf| ensures ReachOf(s.columnMarks, s.columnsOf[q], s.unreached[q], flight - {c}) {
      assert ReachOf(s.columnMarks, s.columnsOf[q], s.unreached[q], flight);
    }
  }

  /** The solver of c is written once its avalanche has ended. */
  lemma WriteSolver(s: State, flight: set<nat>, pending: set<nat>, c: nat, r: nat)
    requires InvBut(s, flight, pending + {c}, {}) && IsPeeled(s.columnMarks, c)
    requires c in s.position && s.position[c] < |s.peels| && s.peels[s.position[c]] == r
    ensures c < |s.uses|
    ensures InvBut(s.(uses := s.uses[c := SolvedBy(r)]), flight, pending, {})
    ensures Progressed(s, s.(uses := s.uses[c := SolvedBy(r)]), flight)
  {
    hide RefsOk, ListsOk, SolvesOk, OrderOk, RowsOk, RowShape, ReachOk;
    forall x | 0 <= x < s.n ensures UseOf(s.columnMarks[x], s.uses[c := SolvedBy(r)][x], s.peels, s.position, x,
      pending) {
      assert UseOf(s.columnMarks[x], s.uses[x], s.peels, s.position, x, pending + {c});
    }
  }

  /** One more weight-two reference for an unmarked column. */
  lemma BumpKeeps(s: State, flight: set<nat>, pending: set<nat>, but: set<nat>, c: nat)
    requires InvBut(s, flight, pending, but) && IsTodo(s.columnMarks, c)
    ensures s.uses[c].Weight2Refs?
    ensures InvBut(s.(uses := s.uses[c := Bumped(s.uses[c])]), flight, pending, but)
  {
    hide RefsOk, ListsOk, SolvesOk, OrderOk, RowsOk, RowShape, ReachOk;
    assert UseOf(s.columnMarks[c], s.uses[c], s.peels, s.position, c, pending);
    forall x | 0 <= x < s.n && x != c ensures UseOf(s.columnMarks[x], s.uses[x], s.peels, s.position, x, pending) {}
  }

  /** The counter and union of an unlisted row do not concern the lists. */
  lemma RowFieldsKeep(s: State, flight: set<nat>, pending: set<nat>, r: nat, count: nat, m: Marks)
    requires InvBut(s, flight, pending, {r}) && r < |s.counts| && r !in s.peels
    ensures |s.marks| == |s.counts|
    ensures InvBut(s.(counts := s.counts[r := count], marks := s.marks[r := m]), flight, pending, {r})
  {
    hide RefsOk, ListsOk, UseOk, RowShape, ReachOk, RowOk, Placed, OrderAt;
    var marks := s.marks[r := m];
    forall i | 0 <= i < |s.peels| ensures SolvesAt(s.columnsOf, marks, s.position, s.peels[i], i) {
      assert SolvesAt(s.columnsOf, s.marks, s.position, s.peels[i], i);
    }
    assert SolvesOk(s.columnsOf, s.columnMarks, marks, s.peels, s.position);
    assert OrderOk(s.columnsOf, s.columnMarks, marks, s.peels, s.position);
  }

  /** An unlisted row stores an unmarked column and becomes a candidate of that column. */
  lemma StoreKeeps(s: State, flight: set<nat>, pending: set<nat>, r: nat, m: Marks, c: nat)
    requires InvBut(s, flight, pending, {r}) && r < |s.counts| && r !in s.peels && IsTodo(s.columnMarks, c)
    ensures c < |s.uses| && s.uses[c].Weight2Refs?
    ensures var t := s.(marks := s.marks[r := m], uses := s.uses[c := Bumped(s.uses[c])]);
      InvBut(t, flight, pending, {r})
  {
    assert |s.uses| == |s.columnMarks|;
    hide InvBut, Bumped;
    assert s.counts[r := s.counts[r]] == s.counts;
    RowFieldsKeep(s, flight, pending, r, s.counts[r], m);
    var t := s.(marks := s.marks[r := m]);
    assert t == s.(counts := s.counts[r := s.counts[r]], marks := s.marks[r := m]);
    BumpKeeps(t, flight, pending, {r}, c);
  }

  // ---------- The unmarked columns of a row ----------

  ghost function TodoOf(columns: seq<nat>, cm: seq<Mark>): (r: seq<nat>)
    ensures forall c :: c in r <==> c in columns && IsTodo(cm, c)
    ensures NoRepeat(columns) ==> NoRepeat(r)
  {
    if columns == [] then [] else
      var c := columns[|columns| - 1];
      var rest := TodoOf(columns[..|columns| - 1], cm);
      if IsTodo(cm, c) then rest + [c] else rest
  }

  lemma TodoOfLeft(columns: seq<nat>, cm: seq<Mark>, left: set<nat>, flight: set<nat>)
    requires ReachOf(cm, columns, left, flight) && NoRepeat(columns)
    ensures |TodoOf(columns, cm)| <= |left|
    ensures |TodoOf(columns, cm)| == |left| ==> left == Elements(TodoOf(columns, cm))
  {
    var t := TodoOf(columns, cm);
    ElementsSize(t);
    SubsetSize(Elements(t), left);
    if |t| == |left| {
      SubsetSize(left - Elements(t), {});
      assert |left - Elements(t)| == |left| - |Elements(t)|;
    }
  }

  /** The union of a row holds the unmarked columns met so far. */
  ghost predicate Stored(columns: seq<nat>, cm: seq<Mark>, k: nat, m: Marks, count: nat)
    requires k <= |columns|
  {
    var t := TodoOf(columns[..k], cm);
    && count == |t| <= 2 && m.Unmarked?
    && (count >= 1 ==> m.first == t[0]) && (count >= 2 ==> m.second == t[1])
  }

  lemma StoredStep(columns: seq<nat>, cm: seq<Mark>, k: nat, m: Marks, count: nat)
    requires k < |columns| && |TodoOf(columns, cm)| <= 2 && Stored(columns, cm, k, m, count)
    ensures var c := columns[k];
      if IsTodo(cm, c) then
        count <= 1 && Stored(columns, cm, k + 1, if count == 0 then Unmarked(c, m.second)
          else Unmarked(m.first, c), count + 1)
      else Stored(columns, cm, k + 1, m, count)
  {
    hide TodoOf;
    TodoPrefix(columns, cm, k);
  }

  lemma StoredNone(columns: seq<nat>, cm: seq<Mark>, m: Marks)
    requires m.Unmarked?
    ensures Stored(columns, cm, 0, m, 0)
  {}

  lemma StoredAll(columns: seq<nat>, cm: seq<Mark>, m: Marks, count: nat)
    requires Stored(columns, cm, |columns|, m, count)
    ensures m.Unmarked? && count == |TodoOf(columns, cm)| <= 2
    ensures count >= 1 ==> m.first == TodoOf(columns, cm)[0]
    ensures count == 2 ==> Elements(TodoOf(columns, cm)) == {m.first, m.second}
  {
    hide TodoOf;
    assert columns[..|columns|] == columns;
  }

  lemma TodoPrefix(columns: seq<nat>, cm: seq<Mark>, k: nat)
    requires k < |columns|
    ensures TodoOf(columns[..k + 1], cm) == TodoOf(columns[..k], cm)
      + (if IsTodo(cm, columns[k]) then [columns[k]] else [])
    ensures |TodoOf(columns[..k + 1], cm)| <= |TodoOf(columns, cm)|
    decreases |columns| - k
  {
    assert columns[..k + 1][..k] == columns[..k];
    if k + 1 < |columns| {
      TodoPrefix(columns, cm, k + 1);
    } else {
      assert columns[..k + 1] == columns;
    }
  }

  // ---------- A new row ----------

  /** Row r entered under each of its columns. */
  ghost function Listed(refs: seq<seq<nat>>, columns: seq<nat>, r: nat): (t: seq<seq<nat>>)
    ensures |t| == |refs|
  {
    seq(|refs|, c requires 0 <= c < |refs| => if c in columns then refs[c] + [r] else refs[c])
  }

  lemma ListedNone(refs: seq<seq<nat>>, columns: seq<nat>, r: nat)
    ensures Listed(refs, columns[..0], r) == refs
  {
    assert Listed(refs, columns[..0], r) == refs;
  }

  lemma ListedNext(refs: seq<seq<nat>>, columns: seq<nat>, r: nat, i: nat, j: nat)
    requires i <= j < |columns| && NoRepeat(columns) && columns[j] < |refs|
    ensures Listed(refs, columns[i..j], r)[columns[j]] == refs[columns[j]]
    ensures Listed(refs, columns[i..j + 1], r) == Listed(refs, columns[i..j], r)[columns[j] := refs[columns[j]] + [r]]
  {
    var c := columns[j];
    assert c !in columns[i..j];
    assert columns[i..j + 1] == columns[i..j] + [c];
    assert Listed(refs, columns[i..j + 1], r) == Listed(refs, columns[i..j], r)[c := refs[c] + [r]];
  }

  lemma ListedDrop(refs: seq<seq<nat>>, columns: seq<nat>, r: nat, i: nat, j: nat)
    requires i < j <= |columns| && NoRepeat(columns) && columns[i] < |refs|
    ensures var l := Listed(refs, columns[i..j], r);
      && l[columns[i]] == refs[columns[i]] + [r]
      && Listed(refs, columns[i + 1..j], r) == l[columns[i] := refs[columns[i]]]
  {
    var c := columns[i];
    assert columns[i..j] == [c] + columns[i + 1..j];
    assert c in columns[i..j];
    assert c !in columns[i + 1..j];
    assert Listed(refs, columns[i + 1..j], r) == Listed(refs, columns[i..j], r)[c := refs[c]];
  }

  /** The two-entry ring that remembers unmarked columns while a new row is read. */
  ghost predicate Noted(columns: seq<nat>, cm: seq<Mark>, k: nat, count: nat, a: nat, b: nat)
    requires k <= |columns|
  {
    var t := TodoOf(columns[..k], cm);
    && count == |t|
    && (1 <= count <= 2 ==> a == t[0]) && (count == 2 ==> b == t[1])
  }

  lemma NotedNone(columns: seq<nat>, cm: seq<Mark>, a: nat, b: nat)
    ensures Noted(columns, cm, 0, 0, a, b)
  {}

  lemma NotedStep(columns: seq<nat>, cm: seq<Mark>, k: nat, count: nat, a: nat, b: nat)
    requires k < |columns| && Noted(columns, cm, k, count, a, b)
    ensures var c := columns[k];
      if IsTodo(cm, c) then Noted(columns, cm, k + 1, count + 1, if count % 2 == 0 then c
        else a, if count % 2 == 0 then b else c)
      else Noted(columns, cm, k + 1, count, a, b)
  {
    hide TodoOf;
    TodoPrefix(columns, cm, k);
  }

  lemma NotedAll(columns: seq<nat>, cm: seq<Mark>, count: nat, a: nat, b: nat)
    requires Noted(columns, cm, |columns|, count, a, b) && NoRepeat(columns)
    ensures count == |TodoOf(columns, cm)| == |Elements(TodoOf(columns, cm))|
    ensures count == 1 ==> TodoOf(columns, cm)[0] == a
    ensures count == 2 ==> Elements(TodoOf(columns, cm)) == {a, b} && IsTodo(cm, a) && IsTodo(cm, b)
  {
    hide TodoOf;
    assert columns[..|columns|] == columns;
    ElementsSize(TodoOf(columns, cm));
    if count == 2 {
      assert a in TodoOf(columns, cm) && b in TodoOf(columns, cm);
    }
  }

  /** A row with these columns is read in: unreached where its columns are unmarked. */
  ghost function NewRow(s: State, columns: seq<nat>, count: nat, next: nat, m: Marks): State {
    s.(nexts := s.nexts + [next], counts := s.counts + [count], marks := s.marks + [m],
       columnsOf := s.columnsOf + [columns],
       unreached := s.unreached + [Elements(TodoOf(columns, s.columnMarks))],
       refs := Listed(s.refs, columns, |s.columnsOf|))
  }

  lemma NewRefs(n: nat, columnsOf: seq<seq<nat>>, refs: seq<seq<nat>>, columns: seq<nat>)
    requires RefsOk(n, columnsOf, refs) && RowShape(n, columns)
    requires forall k :: 0 <= k < |columns| ==> |refs[columns[k]]| < REF_LIST_MAX
    ensures RefsOk(n, columnsOf + [columns], Listed(refs, columns, |columnsOf|))
  {
    var refs', columnsOf' := Listed(refs, columns, |columnsOf|), columnsOf + [columns];
    forall c | 0 <= c < n ensures RefsOf(columnsOf', refs'[c], c) {
      assert RefsOf(columnsOf, refs[c], c);
      var r := |columnsOf|;
      assert refs'[c] == if c in columns then refs[c] + [r] else refs[c];
      forall q | 0 <= q < |columnsOf'| && c in columnsOf'[q] ensures q in refs'[c] {
        if q == r { assert refs'[c][|refs[c]|] == r; } else { assert q in refs[c]; }
      }
    }
  }

  lemma NewRowReach(columnsOf: seq<seq<nat>>, cm: seq<Mark>, unreached: seq<set<nat>>, columns: seq<nat>)
    requires ReachOk(columnsOf, cm, unreached, {})
    ensures ReachOk(columnsOf + [columns], cm, unreached + [Elements(TodoOf(columns, cm))], {})
  {
    var columnsOf', unreached' := columnsOf + [columns], unreached + [Elements(TodoOf(columns, cm))];
    forall q | 0 <= q < |columnsOf'| ensures ReachOf(cm, columnsOf'[q], unreached'[q], {}) {
      if q < |columnsOf| { assert ReachOf(cm, columnsOf[q], unreached[q], {}); }
    }
  }

  lemma NewRowSolves(columnsOf: seq<seq<nat>>, cm: seq<Mark>, marks: seq<Marks>, peels: seq<nat>, position: map<nat,
    nat>, columns: seq<nat>, m: Marks)
    requires SolvesOk(columnsOf, cm, marks, peels, position) && OrderOk(columnsOf, cm, marks, peels, position)
    requires |columnsOf| == |marks|
    ensures SolvesOk(columnsOf + [columns], cm, marks + [m], peels, position)
    ensures OrderOk(columnsOf + [columns], cm, marks + [m], peels, position)
  {
    hide OrderAt;
    forall i | 0 <= i < |peels| ensures SolvesAt(columnsOf + [columns], marks + [m], position, peels[i], i) {
      assert SolvesAt(columnsOf, marks, position, peels[i], i);
    }
  }

  lemma NewRowRows(counts: seq<nat>, marks: seq<Marks>, unreached: seq<set<nat>>, peels: seq<nat>, defers: seq<nat>,
    count: nat, m: Marks, left: set<nat>)
    requires RowsOk(counts, marks, unreached, peels, defers, {})
    ensures RowsOk(counts + [count], marks + [m], unreached + [left], peels, defers, {|counts|})
  {
    hide RowOk, Placed;
  }

  lemma NewRowKeeps(s: State, columns: seq<nat>, count: nat, next: nat, m: Marks)
    requires InvBut(s, {}, {}, {}) && |s.columnsOf| < s.n && RowShape(s.n, columns)
    requires |s.refs| == s.n && forall k :: 0 <= k < |columns| ==> |s.refs[columns[k]]| < REF_LIST_MAX
    ensures var t := NewRow(s, columns, count, next, m); var r := |s.columnsOf|;
      && InvBut(t, {}, {}, {r}) && !Placed(t.peels, t.defers, r)
      && |s.counts| == |s.marks| == |s.unreached| == |s.nexts| == r
  {
    hide ReachOk, RefsOk, UseOk, SolvesOk, OrderOk, RowsOk, NoRepeat, Listed, TodoOf;
    NewRefs(s.n, s.columnsOf, s.refs, columns);
    NewRowReach(s.columnsOf, s.columnMarks, s.unreached, columns);
    NewRowSolves(s.columnsOf, s.columnMarks, s.marks, s.peels, s.position, columns, m);
    NewRowRows(s.counts, s.marks, s.unreached, s.peels, s.defers, count, m, Elements(TodoOf(columns, s.columnMarks)));
    LinkedLonger(s.nexts, next, s.peels, s.peelHead);
    LinkedLonger(s.nexts, next, s.defers, s.deferHead);
  }

  lemma LinkedLonger(nexts: seq<nat>, next: nat, list: seq<nat>, head: nat)
    requires Linked(nexts, list, head)
    ensures Linked(nexts + [next], list, head)
  {}

  // ---------- Deferring a column ----------

  /** The deferred columns are linked in a list and counted. */
  ghost predicate DeferLinks(cm: seq<Mark>, nexts: seq<nat>, list: seq<nat>, head: nat, count: nat) {
    && |nexts| == |cm| && Linked(nexts, list, head) && count == |list|
    && (forall c: nat :: c in list <==> c < |cm| && cm[c].Defer?)
  }

  lemma DeferLinksNone(cm: seq<Mark>, nexts: seq<nat>)
    requires |nexts| == |cm| && forall c :: 0 <= c < |cm| ==> !cm[c].Defer?
    ensures DeferLinks(cm, nexts, [], LIST_TERM, 0)
  {}

  lemma DeferLinksFront(cm: seq<Mark>, nexts: seq<nat>, list: seq<nat>, head: nat, count: nat, c: nat)
    requires DeferLinks(cm, nexts, list, head, count) && c < |cm| && !cm[c].Defer?
    ensures DeferLinks(cm[c := Defer], nexts[c := head], [c] + list, c, count + 1)
  {
    assert c !in list;
    LinkedFront(nexts, list, head, c);
  }

  lemma DeferLinksSame(cm: seq<Mark>, cm': seq<Mark>, nexts: seq<nat>, list: seq<nat>, head: nat, count: nat)
    requires DeferLinks(cm, nexts, list, head, count) && |cm'| == |cm|
    requires forall c :: 0 <= c < |cm| ==> cm'[c].Defer? == cm[c].Defer?
    ensures DeferLinks(cm', nexts, list, head, count)
  {}

  lemma DeferColumnKeeps(s: State, c: nat)
    requires InvBut(s, {}, {}, {}) && IsTodo(s.columnMarks, c)
    ensures var t := s.(columnMarks := s.columnMarks[c := Defer]);
      InvBut(t, {c}, {}, {}) && Fresh(t, c) && |TodoSet(t.columnMarks)| < |TodoSet(s.columnMarks)|
  {
    hide RefsOk, ListsOk, NoRepeat, RowsOk;
    var t := s.(columnMarks := s.columnMarks[c := Defer]);
    TodoDrops(s.columnMarks, c, Defer);
    hide TodoSet;
    forall q | 0 <= q < |t.columnsOf| ensures ReachOf(t.columnMarks, t.columnsOf[q], t.unreached[q], {c}) {
      assert ReachOf(s.columnMarks, s.columnsOf[q], s.unreached[q], {});
    }
    hide ReachOf;
    forall i | 0 <= i < |s.peels| ensures OrderAt(s.columnsOf[s.peels[i]], t.columnMarks, s.position,
      s.marks[s.peels[i]].column, i) {
      assert OrderAt(s.columnsOf[s.peels[i]], s.columnMarks, s.position, s.marks[s.peels[i]].column, i);
    }
    hide OrderAt;
    assert SolvesOk(t.columnsOf, t.columnMarks, t.marks, t.peels, t.position) by { hide SolvesAt; }
    hide SolvesAt, SolvesOk, OrderOk;
    forall x | 0 <= x < |t.columnMarks| ensures UseOf(t.columnMarks[x], t.uses[x], t.peels, t.position, x, {}) {
      assert UseOf(s.columnMarks[x], s.uses[x], s.peels, s.position, x, {});
    }
  }

  // ---------- What peeling ends with ----------

  /** No column is left to place; every row is on one list; the two lists have the sizes of the
      two kinds of columns. */
  lemma AllPlaced(s: State)
    requires InvBut(s, {}, {}, {}) && forall c :: 0 <= c < s.n ==> !s.columnMarks[c].Todo?
    ensures forall r :: 0 <= r < |s.columnsOf| ==> Placed(s.peels, s.defers, r)
    ensures |s.peels| + |s.defers| == |s.columnsOf|
  {
    hide RefsOk, SolvesOk, OrderOk, UseOk, RowShape;
    forall r | 0 <= r < |s.columnsOf| ensures Placed(s.peels, s.defers, r) {
      assert ReachOf(s.columnMarks, s.columnsOf[r], s.unreached[r], {});
      assert s.unreached[r] == {};
      assert RowOk(s.counts[r], s.marks[r], s.unreached[r], Placed(s.peels, s.defers, r));
    }
    var all := s.peels + s.defers;
    forall i, j | 0 <= i < j < |all| ensures all[i] != all[j] {
      if i < |s.peels| <= j { assert all[j] in s.defers; }
    }
    forall i | 0 <= i < |all| ensures all[i] < |s.columnsOf| {}
    forall r | 0 <= r < |s.columnsOf| ensures r in all {
      assert Placed(s.peels, s.defers, r);
    }
    ElementsSize(all);
    RangeFull(|s.columnsOf|, Elements(all));
    CoverSize(all, |s.columnsOf|);
  }

  ghost function SolvedColumns(marks: seq<Marks>, peels: seq<nat>): (r: seq<nat>)
    requires forall i :: 0 <= i < |peels| ==> peels[i] < |marks| && marks[peels[i]].Result?
    ensures |r| == |peels|
  {
    seq(|peels|, i requires 0 <= i < |peels| => marks[peels[i]].column)
  }

  lemma ColumnsPlaced(s: State, deferColumns: seq<nat>)
    requires InvBut(s, {}, {}, {}) && forall c :: 0 <= c < s.n ==> !s.columnMarks[c].Todo?
    requires NoRepeat(deferColumns) && forall c: nat :: c in deferColumns <==> c < s.n && s.columnMarks[c].Defer?
    ensures |s.peels| + |deferColumns| == s.n
  {
    hide RefsOk, ListsOk, OrderOk, UseOk, RowShape, RowsOk, ReachOk;
    assert forall i :: 0 <= i < |s.peels| ==> SolvesAt(s.columnsOf, s.marks, s.position, s.peels[i], i);
    var solved: seq<nat> := SolvedColumns(s.marks, s.peels);
    var all := solved + deferColumns;
    forall c | 0 <= c < s.n ensures c in all {
      if s.columnMarks[c].Peel? {
        assert solved[s.position[c]] == c;
      } else {
        assert c in deferColumns;
      }
    }
    forall i | 0 <= i < |solved| ensures solved[i] < s.n && s.columnMarks[solved[i]].Peel?
      && s.position[solved[i]] == i {}
    forall i, j | 0 <= i < j < |all| ensures all[i] != all[j] {
      if i < |solved| <= j { assert all[j] in deferColumns; }
    }
    forall i | 0 <= i < |all| ensures all[i] < s.n {
      if i >= |solved| { assert all[i] in deferColumns; }
    }
    ElementsSize(all);
    RangeFull(s.n, Elements(all));
    CoverSize(all, s.n);
  }
}

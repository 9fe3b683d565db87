/** Stage 4 ends: with the GE columns known, each peeled row gives its column, in the order the
    rows were peeled, and thereby holds again as it was received. */
module Restoration {
  import opened GF256
  import opened Linear
  import opened Rows
  import opened PeelState
  import opened Sums
  import opened Diagonal
  import opened Equations

  class Restorer {
    const system: System
    const n: nat
    const nexts: seq<nat>
    const peelHead: nat
    const solves: seq<nat>
    const ids: seq<nat>
    const input: Vec
    const pad: bool
    ghost const plan: Plan

    var recovery: Vec

    constructor (system: System, nexts: seq<nat>, peelHead: nat, solves: seq<nat>, ids: seq<nat>, input: Vec, pad: bool,
      ghost plan: Plan, recovery: Vec)
      ensures this.system == system && n == system.code.n && this.nexts == nexts && this.peelHead == peelHead
      ensures this.solves == solves && this.ids == ids && this.input == input && this.pad == pad
      ensures this.plan == plan && this.recovery == recovery
    {
      this.system, n, this.nexts, this.peelHead, this.solves := system, system.code.n, nexts, peelHead, solves;
      this.ids, this.input, this.pad, this.plan, this.recovery := ids, input, pad, plan, recovery;
    }

    ghost predicate Fixed() {
      && ValidSystem(system) && n == system.code.n == plan.n && plan.mixCount == system.Mix() && Planned(plan)
      && n <= |ids| == |input| && |nexts| == n == |plan.solves| && solves == plan.solves
      && Linked(nexts, plan.peels, peelHead)
      && (forall q :: 0 <= q < n ==> RowFixed(q))
    }

    ghost predicate RowFixed(q: nat)
      requires ValidSystem(system) && q < |ids| && q < |plan.columnsOf| && q < |plan.mixOf|
    {
      plan.columnsOf[q] == RowColumns(system.code, ids[q]) && plan.mixOf[q] == MixColumns(system.code, ids[q])
    }

    ghost predicate Sized()
      reads this
    {
      |recovery| == n + system.Mix() + 1
    }

    function InputAt(q: nat): Byte
      requires q < |input|
    {
      if pad && q == n - 1 then ZERO else input[q]
    }

    /** The recovery blocks without the temporary one. */
    ghost function Z(): (z: Vec)
      requires Sized()
      reads this
      ensures |z| == n + system.Mix()
    {
      recovery[..n + system.Mix()]
    }

    /** The rest of a row: all but its column dest. */
    ghost function Rest(memory: Vec, row: nat, dest: nat, k: nat): Byte
      requires ValidSystem(system) && n == system.code.n && row < |ids| && |memory| == n + system.Mix() + 1 && dest < n
      requires k <= |RowColumns(system.code, ids[row])| && row < |input|
    {
      Add(Add(SumOf(MixColumns(system.code, ids[row]), memory), InputAt(row)),
        SumOf(RowColumns(system.code, ids[row])[..k], memory[dest := ZERO]))
    }

    lemma RestNext(memory: Vec, row: nat, dest: nat, k: nat)
      requires ValidSystem(system) && n == system.code.n && row < |ids| && |memory| == n + system.Mix() + 1 && dest < n
      requires k < |RowColumns(system.code, ids[row])| && row < |input|
      ensures var c := RowColumns(system.code, ids[row])[k];
        Rest(memory, row, dest, k + 1) == if c == dest then Rest(memory, row, dest, k)
          else Add(Rest(memory, row, dest, k), memory[c])
    {
      hide Add, SumOf, RowColumns, MixColumns;
      var list, v := RowColumns(system.code, ids[row]), memory[dest := ZERO];
      SumNext(list, k, v);
      var a, b := Add(SumOf(MixColumns(system.code, ids[row]), memory), InputAt(row)), SumOf(list[..k], v);
      AddAssoc(a, b, v[list[k]]);
      AddZero(Add(a, b));
      AddZero(b);
    }

    /** The three mixing blocks and the input block. */
    method StartRow(row: nat, dest: nat)
      requires ValidSystem(system) && n == system.code.n && row < |ids| && row < |input| && dest < n && Sized()
      modifies this
      ensures Sized() && recovery == old(recovery)[dest := Rest(old(recovery), row, dest, 0)]
    {
      hide Add, SumOf, ValidCode, RowMix;
      var mix := RowMix(system.code, ids[row]);
      ghost var memory := recovery;
      SumThree(MixColumns(system.code, ids[row]), memory);
      recovery := recovery[dest := Add(recovery[n + mix[0]], InputAt(row))];
      recovery := recovery[dest := Add(recovery[dest], Add(recovery[n + mix[1]], recovery[n + mix[2]]))];
      StartAlgebra(memory[n + mix[0]], memory[n + mix[1]], memory[n + mix[2]], InputAt(row));
      RestNone(memory, row, dest);
    }

    lemma StartAlgebra(a: Byte, b: Byte, c: Byte, d: Byte)
      ensures Add(Add(a, d), Add(b, c)) == Add(Add(Add(a, b), c), d)
    {}

    lemma RestNone(memory: Vec, row: nat, dest: nat)
      requires ValidSystem(system) && n == system.code.n && row < |ids| && |memory| == n + system.Mix() + 1 && dest < n
        && row < |input|
      ensures Rest(memory, row, dest, 0) == Add(SumOf(MixColumns(system.code, ids[row]), memory), InputAt(row))
    {
      hide Add, RowColumns, MixColumns;
      AddZero(Add(SumOf(MixColumns(system.code, ids[row]), memory), InputAt(row)));
    }

    /** Regenerate column dest from its row: the first two sparse columns at once, then the others. */
    method RestoreRow(row: nat, dest: nat)
      requires ValidSystem(system) && n == system.code.n && row < |ids| && row < |input| && dest < n && Sized()
      requires dest in RowColumns(system.code, ids[row])
      modifies this
      ensures Sized()
      ensures recovery == old(recovery)[dest := Rest(old(recovery), row, dest, |RowColumns(system.code, ids[row])|)]
    {
      hide Add, SumOf, ValidCode, RowColumns, MixColumns, Rest;
      ghost var memory := recovery;
      StartRow(row, dest);
      var list := RowColumns(system.code, ids[row]);
      if |list| >= 2 {
        var c0, c1 := list[0], list[1];
        RestNext(memory, row, dest, 0);
        RestNext(memory, row, dest, 1);
        if c0 != dest {
          if c1 != dest {
            AddAssoc(recovery[dest], recovery[c0], recovery[c1]);
            recovery := recovery[dest := Add(recovery[dest], Add(recovery[c0], recovery[c1]))];
          } else {
            recovery := recovery[dest := Add(recovery[dest], recovery[c0])];
          }
        } else {
          recovery := recovery[dest := Add(recovery[dest], recovery[c1])];
        }
        var k := 2;
        while k < |list|
          invariant 2 <= k <= |list| && Sized()
          invariant recovery == memory[dest := Rest(memory, row, dest, k)]
        {
          RestNext(memory, row, dest, k);
          if list[k] != dest {
            recovery := recovery[dest := Add(recovery[dest], recovery[list[k]])];
          }
          k := k + 1;
        }
      } else {
        assert list[0] == dest;
        RestNext(memory, row, dest, 0);
      }
    }

    /** The row holds with the regenerated column. */
    lemma Restored(memory: Vec, row: nat, dest: nat)
      requires ValidSystem(system) && n == system.code.n && row < |ids| && row < |input| && dest < n && Sized()
      requires dest in RowColumns(system.code, ids[row]) && |memory| == |recovery|
      requires recovery == memory[dest := Rest(memory, row, dest, |RowColumns(system.code, ids[row])|)]
      ensures RowLeft(system, ids[row], Z()) == InputAt(row)
    {
      hide Add, RowColumns, MixColumns;
      var list, mix, v := RowColumns(system.code, ids[row]), MixColumns(system.code, ids[row]), memory[dest := ZERO];
      assert list[..|list|] == list;
      var value := Rest(memory, row, dest, |list|);
      assert recovery == v[dest := value];
      SumUpdate(list, v, dest, value);
      SumAgree(list, Z(), recovery);
      SumAgree(mix, Z(), memory);
      AddZero(value);
      RestoredAlgebra(SumOf(list, v), SumOf(mix, memory), InputAt(row));
    }

    lemma RestoredAlgebra(s: Byte, m: Byte, i: Byte)
      ensures Add(Add(s, Add(Add(m, i), s)), m) == i
    {}

    ghost predicate Holds(q: nat)
      requires ValidSystem(system) && n == system.code.n && q < |ids| && q < |input| && Sized()
      reads this
    {
      RowLeft(system, ids[q], Z()) == InputAt(q)
    }

    /** A row without the column keeps holding. */
    lemma HoldsKept(memory: Vec, q: nat, dest: nat, a: Byte)
      requires ValidSystem(system) && n == system.code.n && q < |ids| && q < |input| && dest < n && Sized()
        && |memory| == |recovery|
      requires recovery == memory[dest := a] && dest !in RowColumns(system.code, ids[q])
      requires RowLeft(system, ids[q], memory[..n + system.Mix()]) == InputAt(q)
      ensures Holds(q)
    {
      hide Add, SumOf, RowColumns, MixColumns;
      SumAgree(RowColumns(system.code, ids[q]), Z(), memory[..n + system.Mix()]);
      SumAgree(MixColumns(system.code, ids[q]), Z(), memory[..n + system.Mix()]);
    }

    /** The rows peeled before position i hold. */
    ghost predicate HoldTo(i: nat)
      requires Fixed() && Sized() && i <= |plan.peels|
      reads this
    {
      forall j :: 0 <= j < i ==> plan.peels[j] < n && Holds(plan.peels[j])
    }

    /** Nothing but peeled columns has changed. */
    ghost predicate OnlyPeeled(memory: Vec)
      requires Fixed() && Sized() && |memory| == |recovery|
      reads this
    {
      forall x :: 0 <= x < |recovery| && (x < n ==> !plan.columnMarks[x].Peel?) ==> recovery[x] == memory[x]
    }

    /** One peeled row of the list. */
    method RestoreNext(row: nat, ghost i: nat)
      requires Fixed() && Sized() && i < |plan.peels| && row == plan.peels[i] && HoldTo(i)
      modifies this
      ensures Sized() && HoldTo(i + 1) && OnlyPeeled(old(recovery))
    {
      hide Linked, RowColumns, MixColumns, Planned, RowPlanned, RowLeft, ValidCode;
      PeelAt(plan, i);
      PlanSmall(plan);
      PeelFacts(plan, row);
      assert RowFixed(row);
      ghost var memory := recovery;
      var dest := solves[row];
      RestoreRow(row, dest);
      assert Holds(row) by { RestoredHolds(memory, row, dest); }
      forall j | 0 <= j < i ensures plan.peels[j] < n && Holds(plan.peels[j]) {
        PeelAt(plan, j);
        var q := plan.peels[j];
        assert RowFixed(q);
        assert !Waits(plan, i + 1, q) && q != row by { EarlierDone(i, j); }
        DoneWithout(plan, i, q);
        assert memory[dest := recovery[dest]] == recovery;
        HoldsKept(memory, q, dest, recovery[dest]);
      }
    }

    lemma EarlierDone(i: nat, j: nat)
      requires Planned(plan) && j < i < |plan.peels|
      ensures plan.peels[j] < |plan.solves| && !Waits(plan, i + 1, plan.peels[j]) && plan.peels[j] != plan.peels[i]
    {
      PeelAt(plan, j);
      PeelAt(plan, i);
    }

    lemma RestoredHolds(memory: Vec, row: nat, dest: nat)
      requires ValidSystem(system) && n == system.code.n && row < |ids| && row < |input| && dest < n && Sized()
      requires dest in RowColumns(system.code, ids[row]) && |memory| == |recovery|
      requires recovery == memory[dest := Rest(memory, row, dest, |RowColumns(system.code, ids[row])|)]
      ensures Holds(row)
    {
      hide Rest, RowLeft, RowColumns;
      Restored(memory, row, dest);
    }

    /** All peeled rows in order. */
    method Substitute()
      requires Fixed() && Sized()
      modifies this
      ensures Sized() && HoldTo(|plan.peels|) && OnlyPeeled(old(recovery))
    {
      hide Linked, Planned, RowFixed, Holds, ValidCode;
      PlanSmall(plan);
      LinkNext(nexts, plan.peels, peelHead, 0);
      var row := peelHead;
      ghost var i := 0;
      while row != LIST_TERM
        invariant 0 <= i <= |plan.peels| && row == (if i < |plan.peels| then plan.peels[i] else LIST_TERM)
        invariant Sized() && HoldTo(i) && OnlyPeeled(old(recovery))
        decreases |plan.peels| - i
      {
        LinkNext(nexts, plan.peels, peelHead, i);
        RestoreNext(row, i);
        row := nexts[row];
        i := i + 1;
      }
      if i < |plan.peels| { LinkNext(nexts, plan.peels, peelHead, i); }
    }
  }
}

/** The decoder asks for more only when it has to. When elimination stops, the rows held do not determine the
    codeword: there is another one with the same rows. When it does not stop, there is none. */
module Completeness {
  import opened Linear
  import opened Triangulation
  import opened Equations
  import opened Solving
  import opened Uniqueness
  import Codec

  // ---------- The decoder ----------

  lemma HonestConsistent(d: Codec.Codec, z: Vec)
    requires d.Valid() && (d.status == Codec.Waiting || d.status == Codec.Decoded)
    ensures d.solver != null && d.solver.Valid() && ValidSystem(d.system) && d.solver.system == d.system
    ensures |d.solver.ids| == |d.solver.input| && d.solver.ids == d.ids
    ensures d.Honest(z) <==> Consistent(d.solver, z)
    ensures if d.status == Codec.Waiting then d.solver.elim.Stuck() else d.solver.elim.Complete()
  {
    hide Solver.Valid, RowLeft, Codeword, Eliminator.Stuck, Eliminator.Complete, Solver.Fresh, ValidSystem;
    HeldSizes(d.solver);
  }

  /** A decoder that asks for more cannot know the codeword: whichever it is, another one has the same rows. */
  lemma WaitingAmbiguous(d: Codec.Codec, z: Vec) returns (z': Vec)
    requires d.Valid() && d.status == Codec.Waiting && d.Honest(z)
    ensures d.Honest(z') && z' != z
  {
    hide Codec.Codec.Valid, Codec.Codec.Honest, Solver.Valid, Eliminator.Stuck, Consistent;
    HonestConsistent(d, z);
    z' := StoppedAmbiguous(d.solver, z);
    HonestConsistent(d, z');
  }

  /** One that has solved the rows does: no other codeword has them. */
  lemma DecodedUnique(d: Codec.Codec, z: Vec, z': Vec)
    requires d.Valid() && d.status == Codec.Decoded && d.Honest(z) && d.Honest(z')
    ensures z == z'
  {
    hide Codec.Codec.Valid, Codec.Codec.Honest, Solver.Valid, Eliminator.Complete, Consistent;
    HonestConsistent(d, z);
    HonestConsistent(d, z');
    CompleteUnique(d.solver, z, z');
  }

  /** An encoder that could solve the rows of its message has the only codeword with these rows. */
  lemma MessageUnique(e: Codec.Codec, message: Vec, z: Vec, z': Vec)
    requires e.Fixed() && e.Generated(message) && EncodesMessage(e, message, z) && EncodesMessage(e, message, z')
    ensures z == z'
  {
    hide Solver.Valid, RowLeft, Codeword, Eliminator.Complete, ValidSystem;
    HeldSizes(e.solver);
    assert Consistent(e.solver, z) && Consistent(e.solver, z');
    CompleteUnique(e.solver, z, z');
  }

  /** z is a codeword whose first rows are the message. */
  ghost predicate EncodesMessage(e: Codec.Codec, message: Vec, z: Vec)
    requires ValidSystem(e.system)
    reads e
  {
    && |z| == e.system.Size() && Codeword(e.system, z) && |message| == e.N()
    && (forall i :: 0 <= i < e.N() ==> RowLeft(e.system, i, z) == e.Padded(message, i))
  }

  /** A decoder that asks for more could have received the same rows from another message. */
  lemma AnotherMessage(e: Codec.Codec, d: Codec.Codec, message: Vec, z: Vec) returns (z': Vec, i: nat)
    requires e.Fixed() && e.Generated(message) && EncodesMessage(e, message, z) && d.system == e.system
    requires d.Valid() && d.status == Codec.Waiting && d.Honest(z)
    ensures d.Honest(z') && |z'| == e.system.Size() && i < e.N() && RowLeft(e.system, i, z') != RowLeft(e.system, i, z)
  {
    hide Codec.Codec.Valid, Solver.Valid, RowLeft, Codeword, Eliminator.Complete, ValidSystem, Codec.Codec.Generated;
    z' := WaitingAmbiguous(d, z);
    if forall i :: 0 <= i < e.N() ==> RowLeft(e.system, i, z') == RowLeft(e.system, i, z) {
      MessageUnique(e, message, z, z');
    }
    i :| 0 <= i < e.N() && RowLeft(e.system, i, z') != RowLeft(e.system, i, z);
  }

  // ---------- Lanes ----------

  /** A decoder that could solve holds rows that determine the codeword, one that asks for more does not. */
  lemma OutcomeMeans(d: Codec.Codec)
    requires d.Valid()
    ensures ValidSystem(d.system)
    ensures d.status == Codec.Decoded ==> Determines(d.system, d.ids)
    ensures d.status == Codec.Waiting ==> !Determines(d.system, d.ids)
  {
    hide Solver.Valid, Eliminator.Stuck, Eliminator.Complete, Solver.Fresh, ValidSystem, Determines,
      Codec.Codec.Determined, Codec.Codec.Gathering;
    if d.status == Codec.Decoded || d.status == Codec.Waiting { d.SolverDecides(); }
  }

  /** Whether the rows held are enough does not depend on the data: of two decoders that hold rows with the same
      ids, say in two lanes of one transfer, not one has decoded while the other asks for more. */
  lemma SameRowsSameOutcome(d1: Codec.Codec, d2: Codec.Codec)
    requires d1.Valid() && d2.Valid() && d1.system == d2.system && d1.ids == d2.ids
    ensures !(d1.status == Codec.Waiting && d2.status == Codec.Decoded)
  {
    hide Codec.Codec.Valid, ValidSystem, Determines;
    OutcomeMeans(d1);
    OutcomeMeans(d2);
  }
}

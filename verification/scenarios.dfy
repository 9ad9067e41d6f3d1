/** The three scenarios the source's unit tests exercise, stated for a field
    of any prime characteristic large enough that the small integers they use
    are distinct nonzero elements. */
module Scenarios {
  import opened Wrappers
  import opened PrimeField
  import opened MultisetHashing
  import opened Homomorphism

  /** Adding and removing single elements, one copy or many at a time, returns
      to the identity after each of the three rounds. */
  lemma SingleOpsScenario()
    requires P > 5
    ensures New().value == 1
    ensures Replay(New(), [AddOp(FromNat(2), 1), RemoveOp(FromNat(2), 1)]) == Ok(New())
    ensures Replay(New(), [AddOp(FromNat(5), 4)] + Repeat(RemoveOp(FromNat(5), 1), 4)) == Ok(New())
    ensures Replay(New(), Repeat(AddOp(FromNat(3), 1), 27) + [RemoveOp(FromNat(3), 27)]) == Ok(New())
  {
    var two, five, three := FromNat(2), FromNat(5), FromNat(3);
    // round one: add 2 once, remove it once
    RemoveUndoesAdd(New(), two, 1);
    assert [AddOp(two, 1), RemoveOp(two, 1)][1..] == [RemoveOp(two, 1)];
    // round two: add 5 four times over, remove one copy four times
    var adds5 := [AddOp(five, 4)];
    ReplayConcat(New(), adds5, Repeat(RemoveOp(five, 1), 4));
    RepeatRemove(Add(New(), five, 4), five, 4);
    RemoveUndoesAdd(New(), five, 4);
    // round three: add one copy of 3 twenty-seven times, remove 27 copies
    ReplayConcat(New(), Repeat(AddOp(three, 1), 27), [RemoveOp(three, 27)]);
    RepeatAdd(New(), three, 27);
    RemoveUndoesAdd(New(), three, 27);
  }

  function UnionLeft(): seq<(Elem, U64)> {
    [(FromNat(2), 1), (FromNat(10), 4), (FromNat(4), 1), (FromNat(7), 3), (FromNat(3), 7)]
  }

  function UnionRight(): seq<(Elem, U64)> {
    [(FromNat(2), 4), (FromNat(6), 1), (FromNat(4), 1), (FromNat(7), 7), (FromNat(3), 7)]
  }

  /** The union of the two add-built hashes equals the hash that accumulates
      both lists of pairs one after the other; this holds in every field. */
  lemma UnionScenario()
    ensures Union(AddAll(New(), UnionLeft()), AddAll(New(), UnionRight()))
         == AddAll(AddAll(New(), UnionLeft()), UnionRight())
  {
    UnionHomomorphism(UnionLeft(), UnionRight());
    AddAllConcat(New(), UnionLeft(), UnionRight());
  }

  function DifferenceLeft(): seq<(Elem, U64)> {
    [(FromNat(50), 1), (FromNat(10), 4), (FromNat(4), 1), (FromNat(7), 3), (FromNat(3), 7)]
  }

  function DifferenceRight(): seq<(Elem, U64)> {
    UnionRight()
  }

  /** The updates the difference test checks against: the net multiplicities. */
  function DifferenceCheck(): seq<Op> {
    [AddOp(FromNat(50), 1), AddOp(FromNat(10), 4), RemoveOp(FromNat(7), 4), RemoveOp(FromNat(2), 4), RemoveOp(FromNat(6), 1)]
  }

  lemma MultiplicityCons(op: Op, rest: seq<Op>, e: Elem)
    ensures Multiplicity([op] + rest, e) == Signed(op, e) + Multiplicity(rest, e)
  {
    assert ([op] + rest)[1..] == rest;
  }

  /** The difference of the two add-built hashes succeeds and equals the hash
      of the net multiplicities: 50 once, 10 four times, 7 and 2 minus four
      times, 6 minus once (4 and 3 cancel out). */
  lemma DifferenceScenario()
    requires P > 50
    ensures Replay(New(), DifferenceCheck()).Ok?
    ensures Difference(AddAll(New(), DifferenceLeft()), AddAll(New(), DifferenceRight())) == Replay(New(), DifferenceCheck())
  {
    var a, b := DifferenceLeft(), DifferenceRight();
    assert PairsNonzero(b);
    DifferenceHomomorphism(a, b);
    var ops := Adds(a) + Removes(b);
    var check := DifferenceCheck();
    var e50, e10, e4, e7, e3, e2, e6 := FromNat(50), FromNat(10), FromNat(4), FromNat(7), FromNat(3), FromNat(2), FromNat(6);
    assert ops == [AddOp(e50, 1)] + ([AddOp(e10, 4)] + ([AddOp(e4, 1)] + ([AddOp(e7, 3)] + ([AddOp(e3, 7)]
               + ([RemoveOp(e2, 4)] + ([RemoveOp(e6, 1)] + ([RemoveOp(e4, 1)] + ([RemoveOp(e7, 7)] + [RemoveOp(e3, 7)]))))))));
    assert check == [AddOp(e50, 1)] + ([AddOp(e10, 4)] + ([RemoveOp(e7, 4)] + ([RemoveOp(e2, 4)] + [RemoveOp(e6, 1)])));
    forall e: Elem | e != 0 ensures Multiplicity(ops, e) == Multiplicity(check, e) {
      MultiplicityOfDifferenceOps(e);
      MultiplicityOfCheckOps(e);
    }
    assert AllNonzero(ops);
    assert AllNonzero(check);
    SameMultiplicitySameHash(ops, check);
    ReplayNonzero(New(), check);
  }

  lemma MultiplicityOfDifferenceOps(e: Elem)
    requires P > 50
    ensures Multiplicity(Adds(DifferenceLeft()) + Removes(DifferenceRight()), e)
         == (if e == 50 then 1 else 0) + (if e == 10 then 4 else 0) + (if e == 4 then 1 - 1 else 0)
          + (if e == 7 then 3 - 7 else 0) + (if e == 3 then 7 - 7 else 0)
          - (if e == 2 then 4 else 0) - (if e == 6 then 1 else 0)
  {
    var xs := Adds(DifferenceLeft());
    var ys := Removes(DifferenceRight());
    MultiplicityConcat(xs, ys, e);
    assert xs == [AddOp(50, 1)] + ([AddOp(10, 4)] + ([AddOp(4, 1)] + ([AddOp(7, 3)] + ([AddOp(3, 7)] + []))));
    assert ys == [RemoveOp(2, 4)] + ([RemoveOp(6, 1)] + ([RemoveOp(4, 1)] + ([RemoveOp(7, 7)] + ([RemoveOp(3, 7)] + []))));
    MultiplicityCons(AddOp(50, 1), xs[1..], e);
    MultiplicityCons(AddOp(10, 4), xs[2..], e);
    MultiplicityCons(AddOp(4, 1), xs[3..], e);
    MultiplicityCons(AddOp(7, 3), xs[4..], e);
    MultiplicityCons(AddOp(3, 7), [], e);
    MultiplicityCons(RemoveOp(2, 4), ys[1..], e);
    MultiplicityCons(RemoveOp(6, 1), ys[2..], e);
    MultiplicityCons(RemoveOp(4, 1), ys[3..], e);
    MultiplicityCons(RemoveOp(7, 7), ys[4..], e);
    MultiplicityCons(RemoveOp(3, 7), [], e);
  }

  lemma MultiplicityOfCheckOps(e: Elem)
    requires P > 50
    ensures Multiplicity(DifferenceCheck(), e)
         == (if e == 50 then 1 else 0) + (if e == 10 then 4 else 0) - (if e == 7 then 4 else 0)
          - (if e == 2 then 4 else 0) - (if e == 6 then 1 else 0)
  {
    var cs := DifferenceCheck();
    assert cs == [AddOp(50, 1)] + ([AddOp(10, 4)] + ([RemoveOp(7, 4)] + ([RemoveOp(2, 4)] + ([RemoveOp(6, 1)] + []))));
    MultiplicityCons(AddOp(50, 1), cs[1..], e);
    MultiplicityCons(AddOp(10, 4), cs[2..], e);
    MultiplicityCons(RemoveOp(7, 4), cs[3..], e);
    MultiplicityCons(RemoveOp(2, 4), cs[4..], e);
    MultiplicityCons(RemoveOp(6, 1), [], e);
  }
}

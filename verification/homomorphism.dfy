/** The hash as a homomorphic image of a signed multiset. A sequence of updates
    determines a multiplicity for every element (its added counts minus its
    removed counts, possibly negative), and a replayed hash is the product of
    e^(multiplicity of e) over the nonzero elements e of the field. */
module Homomorphism {
  import opened Wrappers
  import opened PrimeField
  import opened MultisetHashing

  /** x^z for any integer z; a negative power is the inverse of the positive one. */
  function ZPow(x: Elem, z: int): (r: Elem)
    requires x != 0
    ensures r != 0
  {
    PowIsZero(x, if z >= 0 then z else -z);
    if z >= 0 then Pow(x, z) else Inv(Pow(x, -z))
  }

  /** The signed change an update makes to the multiplicity of e. */
  function Signed(op: Op, e: Elem): int {
    if op.elem != e then 0
    else if op.AddOp? then op.count as int
    else -(op.count as int)
  }

  /** The multiplicity of e in the signed multiset a sequence of updates builds. */
  function Multiplicity(ops: seq<Op>, e: Elem): int {
    if ops == [] then 0 else Signed(ops[0], e) + Multiplicity(ops[1..], e)
  }

  /** Product of e^(Multiplicity(ops, e)) over the elements 0 < e < n. */
  function Canonical(ops: seq<Op>, n: nat): Elem
    requires n <= P
  {
    if n <= 1 then 1 else Mul(Canonical(ops, n - 1), ZPow(n - 1, Multiplicity(ops, n - 1)))
  }

  /** The same update sequence with every addition turned into a removal and back. */
  function Negate(ops: seq<Op>): (r: seq<Op>)
    ensures |r| == |ops|
    ensures forall i :: 0 <= i < |ops| ==> r[i].elem == ops[i].elem && r[i].count == ops[i].count && r[i].AddOp? == ops[i].RemoveOp?
  {
    if ops == [] then []
    else
      var op := ops[0];
      [if op.AddOp? then RemoveOp(op.elem, op.count) else AddOp(op.elem, op.count)] + Negate(ops[1..])
  }

  // ---------------------------------------------------------------------------
  // Integer powers

  lemma ZPowNatAdd(x: Elem, z: int, n: nat)
    requires x != 0
    ensures ZPow(x, z + n) == Mul(ZPow(x, z), Pow(x, n))
  {
    if z >= 0 {
      PowAdd(x, z, n);
    } else if z + n >= 0 {
      // x^(z+n) * x^(-z) == x^n, so multiplying x^n by the inverse of x^(-z) gives x^(z+n)
      PowAdd(x, z + n, -z);
      PowIsZero(x, -z);
      MulComm(Inv(Pow(x, -z)), Pow(x, n));
      MulCancel(Pow(x, z + n), Pow(x, -z));
    } else {
      // x^(-z) == x^(-(z+n)) * x^n
      PowAdd(x, -(z + n), n);
      PowIsZero(x, -(z + n));
      PowIsZero(x, n);
      InvMul(Pow(x, -(z + n)), Pow(x, n));
      MulAssoc(Inv(Pow(x, -(z + n))), Inv(Pow(x, n)), Pow(x, n));
      MulOne(Inv(Pow(x, -(z + n))));
    }
  }

  lemma ZPowNeg(x: Elem, z: int)
    requires x != 0
    ensures Mul(ZPow(x, z), ZPow(x, -z)) == 1
  {
    PowIsZero(x, if z >= 0 then z else -z);
    if z == 0 {
      MulOne(1);
    } else if z < 0 {
      MulComm(Inv(Pow(x, -z)), Pow(x, -z));
    }
  }

  /** Exponents add: x^(a+b) == x^a * x^b for all integers a and b. */
  lemma ZPowAdd(x: Elem, a: int, b: int)
    requires x != 0
    ensures ZPow(x, a + b) == Mul(ZPow(x, a), ZPow(x, b))
  {
    if b >= 0 {
      ZPowNatAdd(x, a, b);
    } else {
      // x^(a+b) * x^(-b) == x^a; multiply both sides by x^b
      ZPowNatAdd(x, a + b, -b);
      ZPowNeg(x, b);
      MulAssoc(ZPow(x, a + b), ZPow(x, -b), ZPow(x, b));
      MulComm(ZPow(x, -b), ZPow(x, b));
      MulOne(ZPow(x, a + b));
    }
  }

  // ---------------------------------------------------------------------------
  // Multiplicities

  lemma {:induction false} MultiplicityConcat(xs: seq<Op>, ys: seq<Op>, e: Elem)
    ensures Multiplicity(xs + ys, e) == Multiplicity(xs, e) + Multiplicity(ys, e)
    decreases |xs|
  {
    if xs == [] {
      assert xs + ys == ys;
    } else {
      assert (xs + ys)[0] == xs[0];
      assert (xs + ys)[1..] == xs[1..] + ys;
      MultiplicityConcat(xs[1..], ys, e);
    }
  }

  lemma {:induction false} MultiplicityNegate(ops: seq<Op>, e: Elem)
    ensures Multiplicity(Negate(ops), e) == -Multiplicity(ops, e)
    decreases |ops|
  {
    if ops != [] {
      assert Negate(ops)[1..] == Negate(ops[1..]);
      MultiplicityNegate(ops[1..], e);
    }
  }

  // ---------------------------------------------------------------------------
  // The canonical product

  /** Where every multiplicity is zero the product is one. */
  lemma {:induction false} CanonicalOfZero(ops: seq<Op>, n: nat)
    requires n <= P
    requires forall e: Elem :: 0 < e < n ==> Multiplicity(ops, e) == 0
    ensures Canonical(ops, n) == 1
  {
    if n > 1 {
      CanonicalOfZero(ops, n - 1);
      MulOne(1);
    }
  }

  /** Multiplicities that add up give products that multiply. */
  lemma {:induction false} CanonicalSum(xs: seq<Op>, ys: seq<Op>, zs: seq<Op>, n: nat)
    requires n <= P
    requires forall e: Elem :: 0 < e < n ==> Multiplicity(zs, e) == Multiplicity(xs, e) + Multiplicity(ys, e)
    ensures Canonical(zs, n) == Mul(Canonical(xs, n), Canonical(ys, n))
  {
    if n <= 1 {
      MulOne(1);
    } else {
      var x: Elem := n - 1;
      CanonicalSum(xs, ys, zs, x);
      var a, b := Canonical(xs, x), Canonical(ys, x);
      var p, q := ZPow(x, Multiplicity(xs, x)), ZPow(x, Multiplicity(ys, x));
      ZPowAdd(x, Multiplicity(xs, x), Multiplicity(ys, x));
      calc {
        Canonical(zs, n);
        Mul(Mul(a, b), Mul(p, q));
        { MulAssoc(a, b, Mul(p, q)); }
        Mul(a, Mul(b, Mul(p, q)));
        { MulAssoc(b, p, q); MulComm(b, p); MulAssoc(p, b, q); }
        Mul(a, Mul(p, Mul(b, q)));
        { MulAssoc(a, p, Mul(b, q)); }
        Mul(Mul(a, p), Mul(b, q));
      }
    }
  }

  /** Two update sequences with the same multiplicities have the same product. */
  lemma CanonicalSameMultiplicity(xs: seq<Op>, ys: seq<Op>, n: nat)
    requires n <= P
    requires forall e: Elem :: 0 < e < n ==> Multiplicity(xs, e) == Multiplicity(ys, e)
    ensures Canonical(xs, n) == Canonical(ys, n)
  {
    CanonicalSum(xs, [], ys, n);
    CanonicalOfZero([], n);
    MulOne(Canonical(xs, n));
  }

  /** The product for a single nonzero update is its own term. */
  lemma {:induction false} CanonicalSingle(op: Op, n: nat)
    requires n <= P && op.elem != 0
    ensures Canonical([op], n) == if op.elem < n then ZPow(op.elem, Signed(op, op.elem)) else 1
  {
    if n > 1 {
      var x: Elem := n - 1;
      CanonicalSingle(op, x);
      assert Multiplicity([op], x) == Signed(op, x) by {
        assert [op][1..] == [];
      }
      if op.elem == x {
        MulOne(ZPow(x, Signed(op, x)));
      } else {
        MulOne(Canonical([op], x));
      }
    }
  }

  // ---------------------------------------------------------------------------
  // The homomorphism theorems

  /** One nonzero update multiplies the hash by its signed power. */
  lemma StepIsSignedPower(m: MultisetHash, op: Op)
    requires op.elem != 0
    ensures Step(m, op).Ok?
    ensures Step(m, op).value.value == Mul(m.value, ZPow(op.elem, Signed(op, op.elem)))
  {
    if op.RemoveOp? && op.count == 0 {
      InvOne();
    }
  }

  /** Replaying nonzero updates multiplies the hash by the product of
      e^(multiplicity of e) over the nonzero elements. */
  lemma {:induction false} ReplayIsCanonical(m: MultisetHash, ops: seq<Op>)
    requires AllNonzero(ops)
    ensures Replay(m, ops) == Ok(MultisetHash(Mul(m.value, Canonical(ops, P))))
    decreases |ops|
  {
    if ops == [] {
      CanonicalOfZero(ops, P);
      MulOne(m.value);
    } else {
      var op, rest := ops[0], ops[1..];
      assert AllNonzero(rest) by {
        forall i | 0 <= i < |rest| ensures rest[i].elem != 0 {
          assert rest[i] == ops[i + 1];
        }
      }
      StepIsSignedPower(m, op);
      var m' := Step(m, op).value;
      var t := ZPow(op.elem, Signed(op, op.elem));
      ReplayIsCanonical(m', rest);
      assert ops == [op] + rest;
      forall e: Elem | 0 < e < P
        ensures Multiplicity(ops, e) == Multiplicity([op], e) + Multiplicity(rest, e)
      {
        MultiplicityConcat([op], rest, e);
      }
      CanonicalSum([op], rest, ops, P);
      CanonicalSingle(op, P);
      MulAssoc(m.value, t, Canonical(rest, P));
    }
  }

  /** The hash built from New() by nonzero updates is the product of
      e^(multiplicity of e): it depends on the multiplicities alone. */
  lemma ReplayFromNew(ops: seq<Op>)
    requires AllNonzero(ops)
    ensures Replay(New(), ops) == Ok(MultisetHash(Canonical(ops, P)))
  {
    ReplayIsCanonical(New(), ops);
    MulOne(Canonical(ops, P));
  }

  /** Equal multiplicities give equal hashes, whatever the order and grouping
      of the updates. */
  lemma SameMultiplicitySameHash(xs: seq<Op>, ys: seq<Op>)
    requires AllNonzero(xs) && AllNonzero(ys)
    requires forall e: Elem :: e != 0 ==> Multiplicity(xs, e) == Multiplicity(ys, e)
    ensures Replay(New(), xs) == Replay(New(), ys)
  {
    ReplayFromNew(xs);
    ReplayFromNew(ys);
    CanonicalSameMultiplicity(xs, ys, P);
  }

  /** Union of two replayed hashes is the hash of the multiset whose
      multiplicities are the sums: the replay of both sequences in turn. */
  lemma UnionAddsMultiplicities(xs: seq<Op>, ys: seq<Op>)
    requires AllNonzero(xs) && AllNonzero(ys)
    ensures Replay(New(), xs).Ok? && Replay(New(), ys).Ok?
    ensures Replay(New(), xs + ys) == Ok(Union(Replay(New(), xs).value, Replay(New(), ys).value))
    ensures forall e: Elem :: Multiplicity(xs + ys, e) == Multiplicity(xs, e) + Multiplicity(ys, e)
  {
    ReplayFromNew(xs);
    ReplayFromNew(ys);
    ReplayConcat(New(), xs, ys);
    ReplayIsCanonical(Replay(New(), xs).value, ys);
    forall e: Elem ensures Multiplicity(xs + ys, e) == Multiplicity(xs, e) + Multiplicity(ys, e) {
      MultiplicityConcat(xs, ys, e);
    }
  }

  /** Difference of two replayed hashes never fails and is the hash of the
      multiset whose multiplicities are the differences: the replay of the
      first sequence followed by the second with additions and removals swapped. */
  lemma DifferenceSubtractsMultiplicities(xs: seq<Op>, ys: seq<Op>)
    requires AllNonzero(xs) && AllNonzero(ys)
    ensures Replay(New(), xs).Ok? && Replay(New(), ys).Ok?
    ensures Difference(Replay(New(), xs).value, Replay(New(), ys).value) == Replay(New(), xs + Negate(ys))
    ensures forall e: Elem :: Multiplicity(xs + Negate(ys), e) == Multiplicity(xs, e) - Multiplicity(ys, e)
  {
    var nys := Negate(ys);
    assert AllNonzero(nys);
    forall e: Elem ensures Multiplicity(xs + nys, e) == Multiplicity(xs, e) - Multiplicity(ys, e) {
      MultiplicityConcat(xs, nys, e);
      MultiplicityNegate(ys, e);
    }
    forall e: Elem | 0 < e < P ensures Multiplicity(ys + nys, e) == Multiplicity(ys, e) + Multiplicity(nys, e) {
      MultiplicityConcat(ys, nys, e);
    }
    forall e: Elem | 0 < e < P ensures Multiplicity(ys + nys, e) == 0 {
      MultiplicityNegate(ys, e);
    }
    // the product for ys times the product for its negation is one
    CanonicalSum(ys, nys, ys + nys, P);
    CanonicalOfZero(ys + nys, P);
    var cy, cn := Canonical(ys, P), Canonical(nys, P);
    InverseUnique(cy, cn);
    ReplayFromNew(xs);
    ReplayFromNew(ys);
    ReplayConcat(New(), xs, nys);
    ReplayIsCanonical(Replay(New(), xs).value, nys);
  }
}

/** The multiset hash: one field element h standing for a signed multiset M,
    with h the product of e^(multiplicity of e in M) over the elements e.
    Every operation returns a fresh hash; none changes its receiver. The two
    aborts of the source are returned as errors. */
module MultisetHashing {
  import opened Wrappers
  import opened PrimeField

  datatype MultisetHash = MultisetHash(value: Elem)

  /** One error per abort of the source: a removed element whose power is not
      invertible, and a subtrahend hash that is not invertible. */
  datatype Error = ElementNotInvertible | OtherNotInvertible

  /** The hash of the empty multiset: the neutral element of Union. */
  function New(): (r: MultisetHash)
    ensures forall m: MultisetHash {:trigger Union(r, m)} :: Union(r, m) == m && Union(m, r) == m
  {
    MultisetHash(1)
  }

  /** The hash after adding `count` copies of `elem`. */
  function Add(m: MultisetHash, elem: Elem, count: U64): (r: MultisetHash)
    ensures r.value == 0 <==> m.value == 0 || (elem == 0 && count > 0)
  {
    PowIsZero(elem, count);
    NoZeroDivisors(m.value, Pow(elem, count));
    MultisetHash(Mul(m.value, Pow(elem, count)))
  }

  /** Add for a value of any type, mapped into the field by `hashToField`. */
  function AddElem<T>(m: MultisetHash, hashToField: T -> Elem, elem: T, count: U64): (r: MultisetHash)
    ensures r == Add(m, hashToField(elem), count)
  {
    MultisetHash(Mul(m.value, Pow(hashToField(elem), count)))
  }

  /** The hash after removing `count` copies of `elem`; multiplicities may go
      negative. Fails when elem^count has no inverse. */
  function Remove(m: MultisetHash, elem: Elem, count: U64): (r: Result<MultisetHash, Error>)
    ensures r.Err? <==> elem == 0 && count > 0
    ensures r.Err? ==> r.error == ElementNotInvertible
    ensures r.Ok? ==> Add(r.value, elem, count) == m
  {
    var invTerm := Inverse(Pow(elem, count));
    if invTerm.None? then
      PowIsZero(elem, count);
      Err(ElementNotInvertible)
    else
      PowIsZero(elem, count);
      MulCancel(m.value, Pow(elem, count));
      Ok(MultisetHash(Mul(m.value, invTerm.value)))
  }

  /** Remove for a value of any type, mapped into the field by `hashToField`. */
  function RemoveElem<T>(m: MultisetHash, hashToField: T -> Elem, elem: T, count: U64): (r: Result<MultisetHash, Error>)
    ensures r == Remove(m, hashToField(elem), count)
  {
    var invTerm := Inverse(Pow(hashToField(elem), count));
    if invTerm.None? then Err(ElementNotInvertible)
    else Ok(MultisetHash(Mul(m.value, invTerm.value)))
  }

  /** The hash of the multiset whose multiplicities are the sums of those of
      the two operands. */
  function Union(m: MultisetHash, other: MultisetHash): (r: MultisetHash)
    ensures r.value == 0 <==> m.value == 0 || other.value == 0
  {
    NoZeroDivisors(m.value, other.value);
    MultisetHash(Mul(m.value, other.value))
  }

  /** The hash of the multiset whose multiplicities are those of `m` minus those
      of `other`. Fails when `other` is not invertible. */
  function Difference(m: MultisetHash, other: MultisetHash): (r: Result<MultisetHash, Error>)
    ensures r.Err? <==> other.value == 0
    ensures r.Err? ==> r.error == OtherNotInvertible
    ensures r.Ok? ==> Union(r.value, other) == m
  {
    var inv := Inverse(other.value);
    if inv.None? then Err(OtherNotInvertible)
    else
      MulCancel(m.value, other.value);
      Ok(MultisetHash(Mul(m.value, inv.value)))
  }

  // ---------------------------------------------------------------------------
  // Laws of single operations

  /** Removing what was just added gives back the original hash. */
  lemma RemoveUndoesAdd(m: MultisetHash, elem: Elem, count: U64)
    requires elem != 0
    ensures Remove(Add(m, elem, count), elem, count) == Ok(m)
  {
    PowIsZero(elem, count);
    MulCancel(m.value, Pow(elem, count));
  }

  /** Removing zero copies succeeds for every element, zero included, and
      changes nothing, since x^0 is one. */
  lemma RemoveNothing(m: MultisetHash, elem: Elem)
    ensures Remove(m, elem, 0) == Ok(m)
  {
    InvOne();
    MulOne(m.value);
  }

  /** Adding a copies and then b copies is adding a + b copies. */
  lemma AddAdditive(m: MultisetHash, elem: Elem, a: U64, b: U64)
    requires a + b < 0x1_0000_0000_0000_0000
    ensures Add(Add(m, elem, a), elem, b) == Add(m, elem, a + b)
  {
    PowAdd(elem, a, b);
    MulAssoc(m.value, Pow(elem, a), Pow(elem, b));
  }

  /** Removing a copies and then b copies is removing a + b copies. */
  lemma RemoveAdditive(m: MultisetHash, elem: Elem, a: U64, b: U64)
    requires elem != 0 && a + b < 0x1_0000_0000_0000_0000
    ensures Remove(m, elem, a).Ok?
    ensures Remove(Remove(m, elem, a).value, elem, b) == Remove(m, elem, a + b)
  {
    var once := Remove(m, elem, a).value;
    var twice := Remove(once, elem, b).value;
    assert Add(Add(twice, elem, b), elem, a) == m;
    AddAdditive(twice, elem, b, a);
    assert Add(twice, elem, a + b) == m;
    RemoveUndoesAdd(twice, elem, a + b);
  }

  /** Additions commute: the order in which elements are added is irrelevant. */
  lemma AddCommutes(m: MultisetHash, e1: Elem, k1: U64, e2: Elem, k2: U64)
    ensures Add(Add(m, e1, k1), e2, k2) == Add(Add(m, e2, k2), e1, k1)
  {
    var t1, t2 := Pow(e1, k1), Pow(e2, k2);
    MulAssoc(m.value, t1, t2);
    MulAssoc(m.value, t2, t1);
    MulComm(t1, t2);
  }

  lemma UnionCommutes(a: MultisetHash, b: MultisetHash)
    ensures Union(a, b) == Union(b, a)
  {
    MulComm(a.value, b.value);
  }

  lemma UnionAssociates(a: MultisetHash, b: MultisetHash, c: MultisetHash)
    ensures Union(Union(a, b), c) == Union(a, Union(b, c))
  {
    MulAssoc(a.value, b.value, c.value);
  }

  /** Taking the difference with b undoes a union with b. */
  lemma DifferenceUndoesUnion(a: MultisetHash, b: MultisetHash)
    requires b.value != 0
    ensures Difference(Union(a, b), b) == Ok(a)
  {
    MulCancel(a.value, b.value);
  }

  // ---------------------------------------------------------------------------
  // Sequences of operations, as the callers thread a hash through them

  /** One update applied to a hash. */
  datatype Op = AddOp(elem: Elem, count: U64) | RemoveOp(elem: Elem, count: U64)

  function Step(m: MultisetHash, op: Op): Result<MultisetHash, Error> {
    match op
    case AddOp(e, k) => Ok(Add(m, e, k))
    case RemoveOp(e, k) => Remove(m, e, k)
  }

  /** Applies the updates in order, stopping at the first failure. */
  function Replay(m: MultisetHash, ops: seq<Op>): Result<MultisetHash, Error>
    decreases |ops|
  {
    if ops == [] then Ok(m)
    else
      match Step(m, ops[0])
      case Err(e) => Err(e)
      case Ok(m') => Replay(m', ops[1..])
  }

  /** Adds every (element, count) pair in order. */
  function AddAll(m: MultisetHash, pairs: seq<(Elem, U64)>): MultisetHash
    decreases |pairs|
  {
    if pairs == [] then m else AddAll(Add(m, pairs[0].0, pairs[0].1), pairs[1..])
  }

  function Adds(pairs: seq<(Elem, U64)>): (ops: seq<Op>)
    ensures |ops| == |pairs|
    ensures forall i :: 0 <= i < |pairs| ==> ops[i] == AddOp(pairs[i].0, pairs[i].1)
  {
    if pairs == [] then [] else [AddOp(pairs[0].0, pairs[0].1)] + Adds(pairs[1..])
  }

  function Removes(pairs: seq<(Elem, U64)>): (ops: seq<Op>)
    ensures |ops| == |pairs|
    ensures forall i :: 0 <= i < |pairs| ==> ops[i] == RemoveOp(pairs[i].0, pairs[i].1)
  {
    if pairs == [] then [] else [RemoveOp(pairs[0].0, pairs[0].1)] + Removes(pairs[1..])
  }

  ghost predicate AllNonzero(ops: seq<Op>) {
    forall i :: 0 <= i < |ops| ==> ops[i].elem != 0
  }

  ghost predicate PairsNonzero(pairs: seq<(Elem, U64)>) {
    forall i :: 0 <= i < |pairs| ==> pairs[i].0 != 0
  }

  function Repeat(op: Op, n: nat): (ops: seq<Op>)
    ensures |ops| == n && forall i :: 0 <= i < n ==> ops[i] == op
  {
    if n == 0 then [] else [op] + Repeat(op, n - 1)
  }

  /** Replaying a concatenation replays the second part from where the first ended. */
  lemma {:induction false} ReplayConcat(m: MultisetHash, xs: seq<Op>, ys: seq<Op>)
    ensures Replay(m, xs).Err? ==> Replay(m, xs + ys) == Replay(m, xs)
    ensures Replay(m, xs).Ok? ==> Replay(m, xs + ys) == Replay(Replay(m, xs).value, ys)
    decreases |xs|
  {
    if xs == [] {
      assert xs + ys == ys;
    } else {
      var s := Step(m, xs[0]);
      assert (xs + ys)[0] == xs[0];
      assert (xs + ys)[1..] == xs[1..] + ys;
      if s.Ok? {
        assert Replay(m, xs) == Replay(s.value, xs[1..]);
        assert Replay(m, xs + ys) == Replay(s.value, xs[1..] + ys);
        ReplayConcat(s.value, xs[1..], ys);
      }
    }
  }

  /** Adding pairs one by one never fails and agrees with AddAll. */
  lemma {:induction false} ReplayAdds(m: MultisetHash, pairs: seq<(Elem, U64)>)
    ensures Replay(m, Adds(pairs)) == Ok(AddAll(m, pairs))
    decreases |pairs|
  {
    if pairs != [] {
      ReplayAdds(Add(m, pairs[0].0, pairs[0].1), pairs[1..]);
    }
  }

  /** Adding a sequence of pairs to m is the union of m with the hash of those pairs. */
  lemma {:induction false} AddAllIsUnion(m: MultisetHash, pairs: seq<(Elem, U64)>)
    ensures AddAll(m, pairs) == Union(m, AddAll(New(), pairs))
    decreases |pairs|
  {
    if pairs != [] {
      var e, k := pairs[0].0, pairs[0].1;
      AddAllIsUnion(Add(m, e, k), pairs[1..]);
      AddAllIsUnion(Add(New(), e, k), pairs[1..]);
      var rest := AddAll(New(), pairs[1..]);
      MulOne(Pow(e, k));
      MulAssoc(m.value, Pow(e, k), rest.value);
    }
  }

  lemma {:induction false} AddAllConcat(m: MultisetHash, xs: seq<(Elem, U64)>, ys: seq<(Elem, U64)>)
    ensures AddAll(m, xs + ys) == AddAll(AddAll(m, xs), ys)
    decreases |xs|
  {
    if xs == [] {
      assert xs + ys == ys;
    } else {
      var m' := Add(m, xs[0].0, xs[0].1);
      assert (xs + ys)[0] == xs[0];
      assert (xs + ys)[1..] == xs[1..] + ys;
      assert AddAll(m, xs + ys) == AddAll(m', xs[1..] + ys);
      AddAllConcat(m', xs[1..], ys);
    }
  }

  /** Union homomorphism: the union of two add-built hashes is the hash built
      by replaying both sequences into one accumulator. */
  lemma UnionHomomorphism(xs: seq<(Elem, U64)>, ys: seq<(Elem, U64)>)
    ensures Union(AddAll(New(), xs), AddAll(New(), ys)) == AddAll(New(), xs + ys)
  {
    AddAllConcat(New(), xs, ys);
    AddAllIsUnion(AddAll(New(), xs), ys);
  }

  /** Removing elem^count is taking the difference with the hash of count
      copies of elem; the two fail together, with their own errors. */
  lemma RemoveIsDifference(m: MultisetHash, elem: Elem, count: U64)
    ensures Remove(m, elem, count).Ok? == Difference(m, Add(New(), elem, count)).Ok?
    ensures Remove(m, elem, count).Ok? ==> Remove(m, elem, count) == Difference(m, Add(New(), elem, count))
  {
    MulOne(Pow(elem, count));
  }

  /** Taking the difference with a union is taking the two differences in turn. */
  lemma DifferenceOfUnion(m: MultisetHash, a: MultisetHash, b: MultisetHash)
    requires a.value != 0 && b.value != 0
    ensures Difference(m, a).Ok?
    ensures Difference(m, Union(a, b)) == Difference(Difference(m, a).value, b)
  {
    var u := Union(a, b).value;
    InvMul(a.value, b.value);
    assert u == Mul(a.value, b.value);
    assert Difference(m, Union(a, b)).value.value == Mul(m.value, Inv(u));
    assert Difference(m, a).value.value == Mul(m.value, Inv(a.value));
    MulAssoc(m.value, Inv(a.value), Inv(b.value));
  }

  /** Removing a sequence of nonzero pairs is the difference with their hash. */
  lemma {:induction false} ReplayRemovesIsDifference(m: MultisetHash, pairs: seq<(Elem, U64)>)
    requires PairsNonzero(pairs)
    ensures AddAll(New(), pairs).value != 0
    ensures Replay(m, Removes(pairs)) == Difference(m, AddAll(New(), pairs))
    decreases |pairs|
  {
    if pairs == [] {
      InvOne();
      MulOne(m.value);
    } else {
      var e, k := pairs[0].0, pairs[0].1;
      var rest := pairs[1..];
      var single := Add(New(), e, k);
      var m' := Remove(m, e, k).value;
      assert PairsNonzero(rest) by {
        forall i | 0 <= i < |rest| ensures rest[i].0 != 0 {
          assert rest[i] == pairs[i + 1];
        }
      }
      assert Removes(pairs)[1..] == Removes(rest);
      assert Step(m, Removes(pairs)[0]) == Ok(m');
      assert Replay(m, Removes(pairs)) == Replay(m', Removes(rest));
      ReplayRemovesIsDifference(m', rest);
      AddAllIsUnion(single, rest);
      assert AddAll(New(), pairs) == Union(single, AddAll(New(), rest));
      RemoveIsDifference(m, e, k);
      DifferenceOfUnion(m, single, AddAll(New(), rest));
    }
  }

  /** Difference homomorphism: the difference of two add-built hashes is the
      hash built by adding the first sequence and removing the second. */
  lemma DifferenceHomomorphism(xs: seq<(Elem, U64)>, ys: seq<(Elem, U64)>)
    requires PairsNonzero(ys)
    ensures Difference(AddAll(New(), xs), AddAll(New(), ys)) == Replay(New(), Adds(xs) + Removes(ys))
  {
    ReplayConcat(New(), Adds(xs), Removes(ys));
    ReplayAdds(New(), xs);
    ReplayRemovesIsDifference(AddAll(New(), xs), ys);
  }

  /** Updates with nonzero elements never fail and keep a nonzero hash nonzero,
      so a difference against such a hash never fails. */
  lemma {:induction false} ReplayNonzero(m: MultisetHash, ops: seq<Op>)
    requires m.value != 0 && AllNonzero(ops)
    ensures Replay(m, ops).Ok? && Replay(m, ops).value.value != 0
    decreases |ops|
  {
    if ops != [] {
      var m' := Step(m, ops[0]);
      assert m'.Ok?;
      if ops[0].RemoveOp? {
        assert Add(m'.value, ops[0].elem, ops[0].count) == m;
      }
      assert AllNonzero(ops[1..]) by {
        forall i | 0 <= i < |ops[1..]| ensures ops[1..][i].elem != 0 {
          assert ops[1..][i] == ops[i + 1];
        }
      }
      ReplayNonzero(m'.value, ops[1..]);
    }
  }

  /** Adding one copy n times is adding n copies. */
  lemma {:induction false} RepeatAdd(m: MultisetHash, elem: Elem, n: U64)
    ensures Replay(m, Repeat(AddOp(elem, 1), n)) == Ok(Add(m, elem, n))
    decreases n
  {
    if n == 0 {
      MulOne(m.value);
    } else {
      var rest := Repeat(AddOp(elem, 1), n - 1);
      var m' := Add(m, elem, 1);
      assert Repeat(AddOp(elem, 1), n)[1..] == rest;
      assert Replay(m, Repeat(AddOp(elem, 1), n)) == Replay(m', rest);
      RepeatAdd(m', elem, n - 1);
      AddAdditive(m, elem, 1, n - 1);
    }
  }

  /** Removing one copy n times is removing n copies. */
  lemma {:induction false} RepeatRemove(m: MultisetHash, elem: Elem, n: U64)
    requires elem != 0
    ensures Replay(m, Repeat(RemoveOp(elem, 1), n)) == Remove(m, elem, n)
    decreases n
  {
    if n == 0 {
      var r := Remove(m, elem, 0).value;
      assert Add(r, elem, 0) == m;
      MulOne(r.value);
    } else {
      var rest := Repeat(RemoveOp(elem, 1), n - 1);
      var m' := Remove(m, elem, 1).value;
      assert Repeat(RemoveOp(elem, 1), n)[1..] == rest;
      assert Replay(m, Repeat(RemoveOp(elem, 1), n)) == Replay(m', rest);
      RepeatRemove(m', elem, n - 1);
      RemoveAdditive(m, elem, 1, n - 1);
    }
  }
}

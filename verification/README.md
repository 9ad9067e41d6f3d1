# Multiset homomorphic hash, modelled in Dafny

`MultisetHash<F>` commits to a signed multiset, where each element has an integer
multiplicity that may be negative. The commitment is a single field element
h = Π e^(m_e). The operations are:

- `new` gives the hash of the empty multiset.
- `add` and `remove` multiply by e^count and by its inverse.
- `add_elem` and `remove_elem` first map a value into the field.
- `multiset_union` multiplies two hashes.
- `multiset_difference` multiplies one hash by the inverse of the other.

All of them return a new hash. None of them writes to its receiver, even though
most take `&mut self`. So the model has only pure functions over a value type.

Files:

- `wrappers.dfy` (module `Wrappers`): `Option`, returned by field inversion, and `Result`, which replaces the source's panics.
- `field.dfy` (module `PrimeField`): the field stands for the source's type parameter `F: Field`. It is the integers modulo `P`, which can be any prime: `P` is a constant of the subset type `Prime` and has no fixed value. The module holds multiplication and `Pow` (x^0 = 1 for every x, zero included, as `pow_vartime` starts from one). It also holds `Inverse`, computed with the extended Euclidean algorithm, which returns `None` exactly on zero. The module proves the field laws the hash relies on.
- `multiset_hash.dfy` (module `MultisetHashing`): the seven operations of `src/lib.rs` and their laws. A caller's sequence of updates is modelled as `Replay`, and the tests' add loops as `AddAll`. The module proves the union and difference homomorphisms for add-built hashes.
- `homomorphism.dfy` (module `Homomorphism`): `Multiplicity`, the signed multiplicity of each element after a sequence of updates. The main theorem, `ReplayFromNew`, says that a hash built from `New()` by nonzero updates equals the product of e^(multiplicity of e) over the nonzero elements. It follows that the hash depends only on the multiplicities, that union adds them and that difference subtracts them.
- `scenarios.dfy` (module `Scenarios`): the three unit tests of `src/lib.rs`, stated as lemmas.

Code and design text disagree in four places; the model follows the code:

- The design text says `remove` fails when the element is zero. The code fails when `elem^count` has no inverse. So `remove(0, 0)` succeeds and returns the hash unchanged (`RemoveNothing`).
- The code aborts with a panic where the design asks for a recoverable error. The model returns `Err`. There is one error value for each panic message: `ElementNotInvertible` for the two removes, `OtherNotInvertible` for `multiset_difference`.
- The design text describes `set_intersection` and `set_symmetric_difference`. The code has neither, so they are not modelled.
- The design text says `hash_to_field` never returns zero. The code does not check this. If the mapping returns zero, `RemoveElem` fails like `Remove` does.

## Model

| member | source | states |
|---|---|---|
| PrimeField.FromNat | src/lib.rs:77 | `n.into()`: a small integer (below P) becomes the field element with that value |
| PrimeField.ExtGcd | src/lib.rs:27 | extended Euclid: g is a positive common divisor of its inputs, and s*a + t*b == g |
| PrimeField.Inverse | src/lib.rs:27-28 | field inversion, as called by the removes and the difference: None exactly on zero; otherwise x times the result is one |
| PrimeField.Inv | src/lib.rs:31 | the unwrapped inverse of a nonzero element is a two-sided inverse |
| PrimeField.InverseUnique | src/lib.rs:31 | a right inverse proves the element nonzero and equals the inverse `invert` returns |
| PrimeField.NoZeroDivisors | src/lib.rs:16 | a product is zero iff one factor is zero |
| PrimeField.InvMul | src/lib.rs:59 | the inverse of a product is the product of the inverses |
| PrimeField.MulAssoc | src/lib.rs:47 | field multiplication, which combines hashes, is associative |
| PrimeField.PowAdd | src/lib.rs:15 | `pow_vartime` adds exponents: x^(a+b) == x^a * x^b |
| PrimeField.PowIsZero | src/lib.rs:27-30 | x^k is zero (so `remove` fails) iff x is zero and k > 0 |
| MultisetHashing.New | src/lib.rs:9-11 | the empty-multiset hash is neutral for union on both sides |
| MultisetHashing.Add | src/lib.rs:14-17 | `add` never fails; its result is zero iff the hash was zero or a positive power of zero was added |
| MultisetHashing.AddElem | src/lib.rs:20-23 | `add_elem` is `add` applied to the element's `hash_to_field` image |
| MultisetHashing.Remove | src/lib.rs:26-32 | `remove` fails (ElementNotInvertible) exactly when elem is zero and count > 0; on success, adding the same pair back gives the original hash |
| MultisetHashing.RemoveElem | src/lib.rs:35-41 | `remove_elem` is `remove` applied to the `hash_to_field` image, failure included |
| MultisetHashing.Union | src/lib.rs:46-48 | the union is zero iff one operand is zero |
| MultisetHashing.Difference | src/lib.rs:53-60 | fails (OtherNotInvertible) exactly when the other hash is zero; on success, the union of the result with the other hash gives back the first |
| MultisetHashing.RemoveUndoesAdd | src/lib.rs:77-79 | for a nonzero element, removing (e, k) after adding (e, k) returns the original hash |
| MultisetHashing.RemoveNothing | src/lib.rs:26-31 | removing zero copies succeeds for every element, zero included, and changes nothing |
| MultisetHashing.AddAdditive | src/lib.rs:14-17 | adding (e, a) then (e, b) equals adding (e, a + b) |
| MultisetHashing.RemoveAdditive | src/lib.rs:26-32 | for nonzero e, removing (e, a) then (e, b) equals removing (e, a + b) |
| MultisetHashing.AddCommutes | src/lib.rs:14-17 | the order of two additions does not matter |
| MultisetHashing.UnionCommutes | src/lib.rs:46-48 | union is commutative |
| MultisetHashing.UnionAssociates | src/lib.rs:46-48 | union is associative |
| MultisetHashing.DifferenceUndoesUnion | src/lib.rs:53-60 | for a nonzero b, the difference of (a union b) and b is a |
| MultisetHashing.ReplayConcat | src/lib.rs:81-91 | threading a hash through two runs of updates equals one run over their concatenation; the first failure stops it |
| MultisetHashing.ReplayAdds | src/lib.rs:99-101 | a run of additions never fails and gives the AddAll hash |
| MultisetHashing.AddAllIsUnion | src/lib.rs:109-115 | adding pairs to any hash is the union of that hash with the hash of the pairs alone |
| MultisetHashing.AddAllConcat | src/lib.rs:109-115 | adding xs and then ys into one accumulator is adding xs + ys |
| MultisetHashing.UnionHomomorphism | src/lib.rs:95-117 | the union of two add-built hashes equals the hash built by adding both lists into one accumulator |
| MultisetHashing.RemoveIsDifference | src/lib.rs:26-32 | removing (e, k) fails exactly when the difference with the hash of (e, k) fails; otherwise the two agree |
| MultisetHashing.DifferenceOfUnion | src/lib.rs:53-60 | the difference with a union of nonzero hashes is two differences in turn |
| MultisetHashing.ReplayRemovesIsDifference | src/lib.rs:53-60 | removing nonzero pairs one by one is the difference with their add-built hash, and that hash is nonzero |
| MultisetHashing.DifferenceHomomorphism | src/lib.rs:120-141 | the difference of two add-built hashes (the second with nonzero elements) equals adding the first list and removing the second |
| MultisetHashing.ReplayNonzero | src/lib.rs:53-60 | updates with nonzero elements never fail and keep a nonzero hash nonzero, so a difference against such a hash cannot fail |
| MultisetHashing.RepeatAdd | src/lib.rs:87-88 | adding one copy n times equals adding n copies |
| MultisetHashing.RepeatRemove | src/lib.rs:82-84 | removing one copy n times equals removing n copies |
| Homomorphism.ZPow | src/lib.rs:25 | a power with a signed exponent of a nonzero element is nonzero |
| Homomorphism.ZPowAdd | src/lib.rs:25 | signed exponents add, so negative multiplicities compose |
| Homomorphism.MultiplicityConcat | src/lib.rs:44-45 | multiplicities of a concatenation are sums |
| Homomorphism.MultiplicityNegate | src/lib.rs:50-52 | swapping adds and removes negates every multiplicity |
| Homomorphism.CanonicalSum | src/lib.rs:44-48 | summed multiplicities give multiplied products |
| Homomorphism.CanonicalSameMultiplicity | src/lib.rs:3-4 | equal multiplicities give equal products |
| Homomorphism.StepIsSignedPower | src/lib.rs:14-32 | a nonzero add or remove multiplies the hash by e^(+count) or e^(-count) |
| Homomorphism.ReplayIsCanonical | src/lib.rs:3-4 | replaying nonzero updates multiplies the hash by the product of e^(multiplicity of e) |
| Homomorphism.ReplayFromNew | src/lib.rs:3-4 | a hash built from `new()` by nonzero updates is exactly the product of e^(multiplicity of e) |
| Homomorphism.SameMultiplicitySameHash | src/lib.rs:3-4 | two update runs with the same multiplicity for every nonzero element give the same hash |
| Homomorphism.UnionAddsMultiplicities | src/lib.rs:44-48 | the union of two replayed hashes is the hash of the summed multiplicities |
| Homomorphism.DifferenceSubtractsMultiplicities | src/lib.rs:50-60 | the difference of two replayed hashes never fails and is the hash of the subtracted multiplicities, negative ones included |
| Scenarios.SingleOpsScenario | src/lib.rs:73-92 | each of the three add/remove rounds of `test_single_ops` returns to the identity |
| Scenarios.UnionScenario | src/lib.rs:95-117 | `test_union`: the union of the two hashes equals adding both lists into one accumulator |
| Scenarios.DifferenceScenario | src/lib.rs:120-141 | `test_difference`: the difference succeeds and equals the hash of the net multiplicities |
| Scenarios.MultiplicityOfDifferenceOps | src/lib.rs:121-130 | multiplicities of the first list added and the second removed: 4 and 3 cancel out |
| Scenarios.MultiplicityOfCheckOps | src/lib.rs:134-139 | multiplicities of the updates `test_difference` checks against |

## Left out

- The concrete field of the tests (the BLS12-381 scalar field, with limbs and Montgomery form) is replaced by the integers modulo an arbitrary prime P.
- `pow_vartime` is modelled by its value x^k, not by its square-and-multiply algorithm or its timing.
- There is no concrete `HashToField` implementation. `hash_to_field` is a function parameter of `AddElem` and `RemoveElem`.
- Collision resistance and other probabilistic security claims cannot be stated as contracts.
- A panic is modelled as a returned `Err`, not as a process abort.
- Intersection and symmetric difference do not exist in the code.
- Scenarios.SingleOpsScenario: stated only for P > 5, so that 2, 5 and 3 are nonzero field elements. The source runs the test in a field far larger than that.
- Scenarios.DifferenceScenario: stated only for P > 50, so that the integers the test uses are distinct nonzero field elements.
- MultisetHashing.AddAdditive: requires a + b < 2^64, because a single `add` call only takes a u64 count.
- MultisetHashing.RemoveAdditive: requires a + b < 2^64, for the same reason.

/** The prime field the hash lives in: the integers modulo an arbitrary prime P.
    Multiplication, exponentiation by a natural number and fallible inversion are
    the capabilities the multiset hash consumes from its field. */
module PrimeField {
  import opened Wrappers

  predicate Divides(d: int, n: int)
    requires d > 0
  {
    n % d == 0
  }

  ghost predicate IsPrime(p: int) {
    p >= 2 && forall d :: 1 < d < p ==> !Divides(d, p)
  }

  type Prime = p: int | IsPrime(p) witness 2

  /** The field's characteristic: any prime at all. */
  const P: Prime

  /** A field element, kept in canonical form. */
  type Elem = x: int | 0 <= x < P

  /** An unsigned 64-bit integer, the type of every multiplicity the source accepts. */
  type U64 = k: int | 0 <= k < 0x1_0000_0000_0000_0000

  /** Embedding of an unsigned integer into the field (`n.into()`). */
  function FromNat(n: nat): (r: Elem)
    ensures n < P ==> r == n
  {
    n % P
  }

  function Mul(a: Elem, b: Elem): Elem {
    (a * b) % P
  }

  /** x^k by repeated multiplication; x^0 is one for every x, zero included. */
  function Pow(x: Elem, k: nat): Elem {
    if k == 0 then 1 else Mul(x, Pow(x, k - 1))
  }

  // ---------------------------------------------------------------------------
  // Euclidean division facts

  /** Euclidean division has a unique quotient and remainder. */
  lemma DivModUnique(a: int, m: int, q: int, r: int)
    requires m > 0 && 0 <= r < m && a == q * m + r
    ensures a % m == r && a / m == q
  {
    var q0, r0 := a / m, a % m;
    assert (q - q0) * m == r0 - r;
    if q > q0 {
      MulAtLeast(q - q0, m);
      assert false;
    } else if q < q0 {
      MulAtLeast(q0 - q, m);
      assert false;
    }
  }

  lemma MulAtLeast(k: int, m: int)
    requires k >= 1 && m > 0
    ensures k * m >= m
  {
  }

  lemma ModAddMultiple(a: int, k: int)
    ensures (a + k * P) % P == a % P
  {
    DivModUnique(a + k * P, P, a / P + k, a % P);
  }

  lemma ModMulLeft(x: int, y: int)
    ensures ((x % P) * y) % P == (x * y) % P
  {
    var q, r := x / P, x % P;
    assert x * y == r * y + (q * y) * P by {
      assert x == q * P + r;
    }
    ModAddMultiple(r * y, q * y);
  }

  // ---------------------------------------------------------------------------
  // Multiplication is a commutative monoid with one as its identity

  lemma MulComm(a: Elem, b: Elem)
    ensures Mul(a, b) == Mul(b, a)
  {
  }

  lemma MulOne(a: Elem)
    ensures Mul(1, a) == a && Mul(a, 1) == a
  {
  }

  lemma MulZero(a: Elem)
    ensures Mul(0, a) == 0 && Mul(a, 0) == 0
  {
  }

  lemma MulAssoc(a: Elem, b: Elem, c: Elem)
    ensures Mul(Mul(a, b), c) == Mul(a, Mul(b, c))
  {
    ModMulLeft(a * b, c);
    ModMulLeft(b * c, a);
    assert (a * b) * c == (b * c) * a;
  }

  // ---------------------------------------------------------------------------
  // Inversion by the extended Euclidean algorithm

  datatype Bezout = Bezout(g: int, s: int, t: int)

  /** The extended Euclidean algorithm: a common divisor g of a and b with
      Bezout coefficients s and t. */
  function ExtGcd(a: nat, b: nat): (r: Bezout)
    ensures r.g == r.s * a + r.t * b
    ensures a > 0 || b > 0 ==> r.g > 0
    ensures r.g > 0 ==> Divides(r.g, a) && Divides(r.g, b)
    decreases b
  {
    if b == 0 then Bezout(a, 1, 0)
    else
      var r' := ExtGcd(b, a % b);
      assert r'.g > 0 ==> Divides(r'.g, a) by {
        if r'.g > 0 {
          DividesFromRemainder(a, b, r'.g);
        }
      }
      BezoutStep(a, b, r'.g, r'.s, r'.t);
      Bezout(r'.g, r'.t, r'.s - (a / b) * r'.t)
  }

  /** Bezout coefficients for (b, a mod b) give coefficients for (a, b). */
  lemma BezoutStep(a: int, b: int, g: int, s: int, t: int)
    requires b > 0 && g == s * b + t * (a % b)
    ensures g == t * a + (s - (a / b) * t) * b
  {
    var q := a / b;
    assert a % b == a - q * b;
    assert t * (a - q * b) == t * a - (q * t) * b;
    assert (s - q * t) * b == s * b - (q * t) * b;
  }

  /** A common divisor of b and a mod b divides a. */
  lemma DividesFromRemainder(a: int, b: int, g: int)
    requires b > 0 && g > 0
    requires Divides(g, b) && Divides(g, a % b)
    ensures Divides(g, a)
  {
    var k1, k2 := b / g, (a % b) / g;
    assert b == k1 * g;
    assert a % b == k2 * g;
    assert a == (a / b) * b + a % b;
    assert a == ((a / b) * k1 + k2) * g;
    DivModUnique(a, g, (a / b) * k1 + k2, 0);
  }

  /** A positive multiple of d is at least d. */
  lemma DivisorBound(d: int, n: int)
    requires d > 0 && n > 0 && Divides(d, n)
    ensures d <= n
  {
    if d > n {
      DivModUnique(n, d, 0, n);
    }
  }

  /** The only positive common divisor of P and a nonzero element is one. */
  lemma CoprimeToP(x: Elem, g: int)
    requires x != 0 && g > 0
    requires Divides(g, x) && Divides(g, P)
    ensures g == 1
  {
    DivisorBound(g, x);
  }

  /** A Bezout identity s*x + t*P == 1 makes s mod P the inverse of x. */
  lemma BezoutInverse(x: Elem, s: int, t: int)
    requires s * x + t * P == 1
    ensures Mul(x, s % P) == 1
  {
    calc {
      Mul(x, s % P);
      ((s % P) * x) % P;
      { ModMulLeft(s, x); }
      (s * x) % P;
      { assert s * x == 1 + (-t) * P; }
      (1 + (-t) * P) % P;
      { ModAddMultiple(1, -t); }
      1;
    }
  }

  /** The multiplicative inverse, which exists exactly for the nonzero elements. */
  function Inverse(x: Elem): (r: Option<Elem>)
    ensures r.None? <==> x == 0
    ensures r.Some? ==> Mul(x, r.value) == 1
  {
    if x == 0 then None
    else
      var b := ExtGcd(x, P);
      CoprimeToP(x, b.g);
      BezoutInverse(x, b.s, b.t);
      Some(b.s % P)
  }

  /** The inverse of a nonzero element, as a total function on nonzero elements. */
  function Inv(x: Elem): (r: Elem)
    requires x != 0
    ensures Mul(x, r) == 1 && Mul(r, x) == 1
  {
    Inverse(x).value
  }

  lemma InvOne()
    ensures Inv(1) == 1
  {
    MulOne(Inv(1));
  }

  /** An element with a right inverse is nonzero, and that inverse is Inv's. */
  lemma InverseUnique(x: Elem, y: Elem)
    requires Mul(x, y) == 1
    ensures x != 0 && y == Inv(x)
  {
    if x == 0 {
      MulZero(y);
      assert false;
    }
    calc {
      y;
      { MulOne(y); }
      Mul(y, 1);
      Mul(y, Mul(x, Inv(x)));
      { MulAssoc(y, x, Inv(x)); }
      Mul(Mul(y, x), Inv(x));
      { MulComm(y, x); }
      Mul(1, Inv(x));
      { MulOne(Inv(x)); }
      Inv(x);
    }
  }

  /** A field has no zero divisors. */
  lemma NoZeroDivisors(a: Elem, b: Elem)
    ensures Mul(a, b) == 0 <==> a == 0 || b == 0
  {
    MulZero(a);
    MulZero(b);
    if a != 0 && Mul(a, b) == 0 {
      calc {
        b;
        { MulOne(b); }
        Mul(1, b);
        { MulComm(a, Inv(a)); }
        Mul(Mul(Inv(a), a), b);
        { MulAssoc(Inv(a), a, b); }
        Mul(Inv(a), Mul(a, b));
        { MulZero(Inv(a)); }
        0;
      }
    }
  }

  lemma InvMul(a: Elem, b: Elem)
    requires a != 0 && b != 0
    ensures Mul(a, b) != 0 && Inv(Mul(a, b)) == Mul(Inv(a), Inv(b))
  {
    NoZeroDivisors(a, b);
    calc {
      Mul(Mul(a, b), Mul(Inv(a), Inv(b)));
      { MulAssoc(a, b, Mul(Inv(a), Inv(b))); }
      Mul(a, Mul(b, Mul(Inv(a), Inv(b))));
      { MulAssoc(b, Inv(a), Inv(b)); MulComm(b, Inv(a)); MulAssoc(Inv(a), b, Inv(b)); }
      Mul(a, Mul(Inv(a), Mul(b, Inv(b))));
      { MulOne(Inv(a)); }
      Mul(a, Inv(a));
      1;
    }
    InverseUnique(Mul(a, b), Mul(Inv(a), Inv(b)));
  }

  /** Multiplying by c and then by the inverse of c leaves a unchanged. */
  lemma MulCancel(a: Elem, c: Elem)
    requires c != 0
    ensures Mul(Mul(a, c), Inv(c)) == a && Mul(Mul(a, Inv(c)), c) == a
  {
    MulAssoc(a, c, Inv(c));
    MulAssoc(a, Inv(c), c);
    MulOne(a);
  }

  // ---------------------------------------------------------------------------
  // Exponentiation

  lemma {:induction false} PowAdd(x: Elem, a: nat, b: nat)
    ensures Pow(x, a + b) == Mul(Pow(x, a), Pow(x, b))
  {
    if a == 0 {
      MulOne(Pow(x, b));
    } else {
      PowAdd(x, a - 1, b);
      MulAssoc(x, Pow(x, a - 1), Pow(x, b));
    }
  }

  /** x^k is zero exactly when x is zero and k is positive. */
  lemma {:induction false} PowIsZero(x: Elem, k: nat)
    ensures Pow(x, k) == 0 <==> x == 0 && k > 0
  {
    if k > 0 {
      PowIsZero(x, k - 1);
      NoZeroDivisors(x, Pow(x, k - 1));
    }
  }
}

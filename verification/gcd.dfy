/** Greatest common divisor by Euclid's algorithm, the role `math.gcd`
    plays in the key generator, with Bezout coefficients for the proofs. */
module Euclid {
  import opened Arith

  /** gcd(a, 0) = a and gcd(a, b) = gcd(b, a mod b) for b > 0. */
  function Gcd(a: nat, b: nat): nat
    decreases b
  {
    if b == 0 then a else Gcd(b, a % b)
  }

  /** Euclid's algorithm computes a common divisor that every common
      divisor divides. */
  lemma {:induction false} GcdIsGreatestCommonDivisor(a: nat, b: nat)
    ensures Divides(Gcd(a, b), a) && Divides(Gcd(a, b), b)
    ensures forall c :: Divides(c, a) && Divides(c, b) ==> Divides(c, Gcd(a, b))
    decreases b
  {
    if b != 0 {
      GcdIsGreatestCommonDivisor(b, a % b);
      var g := Gcd(a, b);
      assert a == b * (a / b) + a % b;
      DividesLinear(g, b, a % b, a / b, 1);
      forall c | Divides(c, a) && Divides(c, b)
        ensures Divides(c, g)
      {
        assert a % b == a * 1 + b * (-(a / b));
        DividesLinear(c, a, b, 1, -(a / b));
      }
    } else {
      DividesIntro(a, 0, 0);
    }
  }

  /** The gcd does not depend on the order of its arguments. */
  lemma {:induction false} GcdCommutes(a: nat, b: nat)
    ensures Gcd(a, b) == Gcd(b, a)
  {
    if a < b {
      ModSmall(a, b);
    } else if b < a {
      ModSmall(b, a);
    }
  }

  /** The gcd of a positive number is positive. */
  lemma GcdPositive(a: nat, b: nat)
    requires a > 0 || b > 0
    ensures Gcd(a, b) > 0
  {
    GcdIsGreatestCommonDivisor(a, b);
  }

  /** Bezout coefficients from the extended Euclidean algorithm. */
  function Bezout(a: nat, b: nat): (r: (int, int))
    ensures a * r.0 + b * r.1 == Gcd(a, b)
    decreases b
  {
    if b == 0 then (1, 0)
    else
      var (x, y) := Bezout(b, a % b);
      assert a % b == a - b * (a / b);
      assert a * y + b * (x - (a / b) * y) == b * x + (a % b) * y;
      (y, x - (a / b) * y)
  }

  /** Consecutive numbers are coprime. */
  lemma GcdOfConsecutive(n: nat)
    requires n >= 2
    ensures Gcd(n, n - 1) == 1
  {
    if n == 2 {
      assert Gcd(2, 1) == Gcd(1, 0);
    } else {
      assert n == (n - 1) * 1 + 1;
      DivModUnique(n, n - 1, 1, 1);
      assert Gcd(n, n - 1) == Gcd(n - 1, 1);
      assert Gcd(n - 1, 1) == Gcd(1, 0);
    }
  }
}

/** Key derivation of example_rsa.py: the brute-force searches for the
    public exponent (`calculate_e`) and the private exponent
    (`calculate_d`), each a "first witness in a range" loop. */
module KeyGen {
  import opened Wrappers
  import opened Arith
  import opened Euclid

  /** Python's `divmod(a, b)`: the quotient is rounded toward minus
      infinity, so the remainder takes the sign of `b`. */
  function DivMod(a: int, b: int): (r: (int, int))
    requires b != 0
    ensures a == b * r.0 + r.1
    ensures b > 0 ==> 0 <= r.1 < b
    ensures b < 0 ==> b < r.1 <= 0
  {
    if b > 0 || a % b == 0 then (a / b, a % b)
    else (a / b - 1, a % b + b)
  }

  /** `e` is an admissible public exponent: 2 <= e < phi and coprime to phi. */
  predicate IsPublicExponent(phi: int, e: int)
  {
    2 <= e < phi && Gcd(phi, e) == 1
  }

  /** `e` is the first admissible exponent in the scan 2, 3, ..., phi - 1. */
  predicate IsFirstPublicExponent(phi: int, e: int)
  {
    IsPublicExponent(phi, e) && forall j :: 2 <= j < e ==> Gcd(phi, j) != 1
  }

  /** `calculate_e`: the first i in range(2, phi) with gcd(phi, i) == 1,
      or None when the range holds none. */
  method CalculateE(phi: int) returns (r: Option<int>)
    ensures r.Some? <==> phi >= 3
    ensures r.Some? ==> IsFirstPublicExponent(phi, r.value)
  {
    if phi < 3 {
      return None;
    }
    PublicExponentExists(phi);
    var i := 2;
    while i < phi
      invariant 2 <= i <= phi - 1
      invariant forall j :: 2 <= j < i ==> Gcd(phi, j) != 1
    {
      if Gcd(phi, i) == 1 {
        return Some(i);
      }
      i := i + 1;
    }
    return None;
  }

  /** A range(2, phi) with at least one element always holds a coprime
      candidate, phi - 1, so the scan of `calculate_e` cannot come up empty. */
  lemma PublicExponentExists(phi: int)
    requires phi >= 3
    ensures IsPublicExponent(phi, phi - 1)
  {
    GcdOfConsecutive(phi);
  }

  /** The scan order makes the public exponent unique. */
  lemma FirstPublicExponentUnique(phi: int, e1: int, e2: int)
    requires IsFirstPublicExponent(phi, e1) && IsFirstPublicExponent(phi, e2)
    ensures e1 == e2
  {
  }

  /** Candidate i of `calculate_d`'s scan: phi * i + 1 is a multiple of e. */
  predicate IsPrivateWitness(phi: int, e: int, i: int)
  {
    1 <= i < phi && e != 0 && (phi * i + 1) % e == 0
  }

  /** `i` is the first candidate in the scan 1, 2, ..., phi - 1 that works. */
  predicate IsFirstPrivateWitness(phi: int, e: int, i: int)
  {
    IsPrivateWitness(phi, e, i) && forall j :: 1 <= j < i ==> !IsPrivateWitness(phi, e, j)
  }

  /** The scan order makes the candidate of `calculate_d` unique. */
  lemma FirstPrivateWitnessUnique(phi: int, e: int, i1: int, i2: int)
    requires IsFirstPrivateWitness(phi, e, i1) && IsFirstPrivateWitness(phi, e, i2)
    ensures i1 == i2
  {
  }

  /** `calculate_d`: for the first i in range(1, phi) with
      divmod(phi * i + 1, e) leaving no remainder, the quotient; None when
      there is no such i. divmod raises ZeroDivisionError for e == 0 as soon
      as the loop runs, hence the precondition. */
  method CalculateD(phi: int, e: int) returns (r: Option<int>)
    requires phi <= 1 || e != 0
    ensures r.Some? ==> exists i :: IsFirstPrivateWitness(phi, e, i) && e * r.value == phi * i + 1
    ensures r.None? <==> forall i :: !IsPrivateWitness(phi, e, i)
    ensures IsPublicExponent(phi, e) ==> r.Some?
    ensures phi >= 1 && e >= 1 && Gcd(phi, e) != 1 ==> r.None?
    ensures r.Some? && phi > 1 ==> (e * r.value) % phi == 1
  {
    if IsPublicExponent(phi, e) {
      var w := PrivateWitnessExists(phi, e);
    }
    if phi >= 1 && e >= 1 && Gcd(phi, e) != 1 {
      forall i | IsPrivateWitness(phi, e, i)
        ensures false
      {
        WitnessForcesCoprime(phi, e, i);
      }
    }
    var i := 1;
    while i < phi
      invariant 1 <= i
      invariant phi >= 1 ==> i <= phi
      invariant forall j :: 1 <= j < i ==> !IsPrivateWitness(phi, e, j)
    {
      var (q, rem) := DivMod(phi * i + 1, e);
      if rem == 0 {
        DivModUnique(phi * i + 1, e, q, 0);
        assert IsFirstPrivateWitness(phi, e, i);
        if phi > 1 {
          PrivateExponentInverts(phi, e, q, i);
        }
        return Some(q);
      }
      i := i + 1;
    }
    return None;
  }

  /** A candidate of `calculate_d` exists only for an e coprime to phi:
      any common divisor of e and phi divides both phi * i + 1 and phi * i. */
  lemma WitnessForcesCoprime(phi: nat, e: nat, i: int)
    requires IsPrivateWitness(phi, e, i)
    ensures Gcd(phi, e) == 1
  {
    var g := Gcd(phi, e);
    GcdIsGreatestCommonDivisor(phi, e);
    GcdPositive(phi, e);
    var m := phi * i;
    assert Divides(e, m + 1);
    DividesTransitive(g, e, m + 1);
    DividesLinear(g, m + 1, phi, 1, -i);
    assert phi * -i == -m;
    assert (m + 1) * 1 + phi * -i == 1;
    DividesBound(g, 1);
  }

  /** The arithmetic behind the witness below: with phi * x + e * y = 1 and
      x = e * qx + r, the candidate i = e - r gives a multiple of e. */
  lemma BezoutWitnessArith(phi: int, e: int, x: int, y: int, qx: int, r: int)
    requires phi * x + e * y == 1 && x == e * qx + r
    ensures phi * (e - r) + 1 == e * (phi + phi * qx + y)
    ensures r == 0 ==> 1 == e * (phi * qx + y)
  {
    assert phi * x == phi * (e * qx) + phi * r;
    assert phi * (e * qx) == e * (phi * qx);
  }

  /** For a coprime public exponent 2 <= e < phi, the scan of `calculate_d`
      succeeds, and already below e: from Bezout, phi * x = 1 (mod e), and
      i = e - (x mod e) makes phi * i + 1 a multiple of e. */
  lemma PrivateWitnessExists(phi: int, e: int) returns (i: int)
    requires IsPublicExponent(phi, e)
    ensures 1 <= i < e && IsPrivateWitness(phi, e, i)
  {
    var (x, y) := Bezout(phi, e);
    var qx, r := x / e, x % e;
    BezoutWitnessArith(phi, e, x, y, qx, r);
    if r == 0 {
      DividesIntro(e, 1, phi * qx + y);
      DividesBound(e, 1);
      assert false;
    }
    i := e - r;
    ModOfMultiple(e, phi + phi * qx + y);
  }

  /** The searched private exponent is the inverse of e modulo phi:
      e * d = phi * i + 1 leaves remainder 1 whenever phi > 1. */
  lemma PrivateExponentInverts(phi: int, e: int, d: int, i: int)
    requires phi > 1 && e * d == phi * i + 1
    ensures (e * d) % phi == 1
  {
    ModAddMultiple(1, phi, i);
    ModSmall(1, phi);
  }

  /** Both searches on phi = 3120 (p = 61, q = 53): the public exponent is
      7, the private one 1783, found at i = 4. */
  lemma SmallKeyExample()
    ensures IsFirstPublicExponent(3120, 7)
    ensures IsFirstPrivateWitness(3120, 7, 4) && 7 * 1783 == 3120 * 4 + 1
  {
    assert Gcd(3120, 2) == 2 && Gcd(3120, 3) == 3 && Gcd(3120, 4) == 4;
    assert Gcd(3120, 5) == 5 && Gcd(3120, 6) == 6 && Gcd(3120, 7) == 1;
    assert !IsPrivateWitness(3120, 7, 1) && !IsPrivateWitness(3120, 7, 2);
    assert !IsPrivateWitness(3120, 7, 3) && IsPrivateWitness(3120, 7, 4);
  }
}

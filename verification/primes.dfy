/** Primes, Euclid's lemma, the binomial theorem and Fermat's little
    theorem: the number theory behind the RSA round trip. */
module Primes {
  import opened Arith
  import opened Euclid

  /** `p` is prime: at least two, and no divisor strictly between 1 and p. */
  predicate IsPrime(p: int)
  {
    p >= 2 && forall d :: 1 < d < p ==> !Divides(d, p)
  }

  /** No divisor of `p` in [k, hi): trial division, evaluable on literals. */
  predicate NoDivisorFrom(p: nat, k: nat, hi: nat)
    requires k >= 1
    decreases hi - k
  {
    k >= hi || (p % k != 0 && NoDivisorFrom(p, k + 1, hi))
  }

  lemma {:induction false} TrialDivisionSound(p: nat, k: nat, hi: nat)
    requires k >= 1 && NoDivisorFrom(p, k, hi)
    ensures forall d :: k <= d < hi ==> !Divides(d, p)
    decreases hi - k
  {
    if k < hi {
      TrialDivisionSound(p, k + 1, hi);
    }
  }

  /** Trial division by 2 .. s with (s + 1)^2 > p establishes primality:
      a proper factorisation has a factor no larger than s. */
  lemma PrimeByTrialDivision(p: nat, s: nat)
    requires p >= 2 && (s + 1) * (s + 1) > p && NoDivisorFrom(p, 2, s + 1)
    ensures IsPrime(p)
  {
    TrialDivisionSound(p, 2, s + 1);
    forall d | 1 < d < p
      ensures !Divides(d, p)
    {
      if Divides(d, p) {
        var k := DividesElim(d, p);
        DividesIntro(k, p, d);
        if k <= 1 {
          MulMonotone(k, 1, d);
        } else if k >= p {
          MulMonotone(2, d, k);
        } else if d > s && k > s {
          MulMonotone(s + 1, d, s + 1);
          MulMonotone(s + 1, k, d);
        }
      }
    }
  }

  /** The only positive divisors of a prime are 1 and itself. */
  lemma PrimeDivisors(p: int, d: int)
    requires IsPrime(p) && d > 0 && Divides(d, p)
    ensures d == 1 || d == p
  {
    DividesBound(d, p);
  }

  /** A prime not dividing r is coprime to it. */
  lemma PrimeCoprime(p: nat, r: nat)
    requires IsPrime(p) && 0 < r < p
    ensures Gcd(p, r) == 1
  {
    var g := Gcd(p, r);
    GcdIsGreatestCommonDivisor(p, r);
    GcdPositive(p, r);
    PrimeDivisors(p, g);
    if g == p {
      DividesBound(p, r);
    }
  }

  /** The Bezout identity p x + r y = 1 with r = a - p (a / p) shows that b
      is a combination of p and a b. */
  lemma EuclidCombination(p: int, a: int, b: int, x: int, y: int)
    requires p != 0 && p * x + (a % p) * y == 1
    ensures b == p * (x * b - (a / p) * b * y) + (a * b) * y
  {
    var q, r := a / p, a % p;
    assert a == p * q + r;
    calc {
      b;
      (p * x + r * y) * b;
      p * x * b + (a - p * q) * y * b;
      p * (x * b - q * b * y) + (a * b) * y;
    }
  }

  /** Euclid's lemma: a prime dividing a product divides a factor. */
  lemma EuclidLemma(p: int, a: int, b: int)
    requires IsPrime(p) && Divides(p, a * b)
    ensures Divides(p, a) || Divides(p, b)
  {
    var r := a % p;
    if r != 0 {
      PrimeCoprime(p, r);
      var (x, y) := Bezout(p, r);
      EuclidCombination(p, a, b, x, y);
      DividesIntro(p, p, 1);
      DividesLinear(p, p, a * b, x * b - (a / p) * b * y, y);
    }
  }

  /** Two distinct primes dividing a number: so does their product. */
  lemma DistinctPrimesDivide(p: int, q: int, x: int)
    requires IsPrime(p) && IsPrime(q) && p != q
    requires Divides(p, x) && Divides(q, x)
    ensures Divides(p * q, x)
  {
    var k := DividesElim(p, x);
    EuclidLemma(q, p, k);
    if Divides(q, p) {
      PrimeDivisors(p, q);
      assert false;
    }
    var j := DividesElim(q, k);
    assert x == (p * q) * j;
    DividesIntro(p * q, x, j);
  }

  /** Binomial coefficients by Pascal's rule. */
  function Binom(n: nat, k: nat): nat
  {
    if k == 0 then 1 else if n == 0 then 0 else Binom(n - 1, k - 1) + Binom(n - 1, k)
  }

  lemma {:induction false} BinomAbove(n: nat, k: nat)
    requires k > n
    ensures Binom(n, k) == 0
  {
    if n > 0 {
      BinomAbove(n - 1, k - 1);
      BinomAbove(n - 1, k);
    }
  }

  lemma {:induction false} BinomDiagonal(n: nat)
    ensures Binom(n, n) == 1
  {
    if n > 0 {
      BinomDiagonal(n - 1);
      BinomAbove(n - 1, n);
    }
  }

  /** The arithmetic step of the absorption identity's induction. */
  lemma AbsorptionStep(k: int, m: int, b1: int, b2: int, c1: int, c2: int)
    requires k * b2 == m * c2 && (k - 1) * b1 == m * c1 && b1 == c1 + c2
    ensures k * (b1 + b2) == (m + 1) * b1
  {
    assert k * (b1 + b2) == (k - 1) * b1 + b1 + k * b2;
    assert (m + 1) * b1 == m * c1 + m * c2 + b1;
  }

  /** The absorption identity k * C(n, k) = n * C(n-1, k-1). */
  lemma {:induction false} Absorption(n: nat, k: nat)
    requires n >= 1 && k >= 1
    ensures k * Binom(n, k) == n * Binom(n - 1, k - 1)
  {
    if n == 1 {
      if k >= 2 {
        BinomAbove(1, k);
        BinomAbove(0, k - 1);
      }
    } else {
      var m := n - 1;
      Absorption(m, k);
      if k == 1 {
        assert Binom(n, 1) == Binom(m, 0) + Binom(m, 1);
      } else {
        Absorption(m, k - 1);
        AbsorptionStep(k, m, Binom(m, k - 1), Binom(m, k), Binom(m - 1, k - 2), Binom(m - 1, k - 1));
      }
    }
  }

  /** A prime divides every inner coefficient of its row. */
  lemma PrimeDividesBinom(p: nat, k: nat)
    requires IsPrime(p) && 0 < k < p
    ensures Divides(p, Binom(p, k))
  {
    Absorption(p, k);
    DividesIntro(p, k * Binom(p, k), Binom(p - 1, k - 1));
    EuclidLemma(p, k, Binom(p, k));
    if Divides(p, k) {
      DividesBound(p, k);
      assert false;
    }
  }

  /** The first k terms of the binomial expansion of (a + 1)^n. */
  function BinomSum(n: nat, a: nat, k: nat): nat
  {
    if k == 0 then 0 else BinomSum(n, a, k - 1) + Binom(n, k - 1) * Pow(a, k - 1)
  }

  /** The arithmetic step of BinomSumStep's induction. */
  lemma BinomSumStepArith(a: int, s0: int, s1: int, t0: int, c1: int, c2: int, p0: int, p1: int)
    requires t0 == a * s0 + s1 && s1 == s0 + c1 * p0 && p1 == a * p0
    ensures t0 + (c1 + c2) * p1 == a * s1 + (s1 + c2 * p1)
  {
    assert (c1 + c2) * p1 == c1 * (a * p0) + c2 * p1;
    assert a * s1 == a * s0 + a * (c1 * p0);
  }

  /** Pascal's rule lifted to partial sums of the expansion. */
  lemma {:induction false} BinomSumStep(n: nat, a: nat, k: nat)
    ensures BinomSum(n + 1, a, k + 1) == a * BinomSum(n, a, k) + BinomSum(n, a, k + 1)
  {
    if k > 0 {
      BinomSumStep(n, a, k - 1);
      BinomSumStepArith(a, BinomSum(n, a, k - 1), BinomSum(n, a, k), BinomSum(n + 1, a, k),
        Binom(n, k - 1), Binom(n, k), Pow(a, k - 1), Pow(a, k));
    }
  }

  lemma SuccessorProduct(a: int, s: int)
    ensures (a + 1) * s == a * s + s
  {
  }

  /** The binomial theorem for (a + 1)^n. */
  lemma {:induction false} BinomialTheorem(n: nat, a: nat)
    ensures Pow(a + 1, n) == BinomSum(n, a, n + 1)
  {
    if n > 0 {
      var m := n - 1;
      BinomialTheorem(m, a);
      BinomSumStep(m, a, m + 1);
      BinomAbove(m, m + 1);
      var sm := BinomSum(m, a, m + 1);
      assert BinomSum(m, a, m + 2) == sm;
      assert Pow(a + 1, n) == (a + 1) * Pow(a + 1, m);
      SuccessorProduct(a, sm);
    }
  }

  /** Modulo a prime p, all terms of (a + 1)^p but the last collapse to 1. */
  lemma {:induction false} PrimeRowSum(p: nat, a: nat, k: nat)
    requires IsPrime(p) && 1 <= k <= p
    ensures BinomSum(p, a, k) % p == 1
  {
    if k == 1 {
      ModSmall(1, p);
    } else {
      PrimeRowSum(p, a, k - 1);
      PrimeDividesBinom(p, k - 1);
      var c := DividesElim(p, Binom(p, k - 1));
      assert Binom(p, k - 1) * Pow(a, k - 1) == p * (c * Pow(a, k - 1));
      ModAddMultiple(BinomSum(p, a, k - 1), p, c * Pow(a, k - 1));
    }
  }

  /** Fermat's little theorem: a^p = a modulo a prime p. */
  lemma {:induction false} FermatLittle(p: nat, a: nat)
    requires IsPrime(p)
    ensures Pow(a, p) % p == a % p
  {
    if a == 0 {
      assert Pow(0, p) == 0 * Pow(0, p - 1);
    } else {
      var b := a - 1;
      FermatLittle(p, b);
      BinomialTheorem(p, b);
      BinomDiagonal(p);
      PrimeRowSum(p, b, p);
      assert Pow(a, p) == BinomSum(p, b, p) + Pow(b, p);
      ModAdd(BinomSum(p, b, p), Pow(b, p), p);
      ModAdd(b, 1, p);
      ModSmall(1, p);
    }
  }

  /** m^(1 + k(p-1)) = m modulo a prime p, for every m. */
  lemma {:induction false} FermatPower(p: nat, m: nat, k: nat)
    requires IsPrime(p)
    ensures Pow(m, 1 + k * (p - 1)) % p == m % p
  {
    if k > 0 {
      FermatPower(p, m, k - 1);
      var x := (k - 1) * (p - 1);
      assert 1 + k * (p - 1) == p + x;
      PowAdd(m, p, x);
      PowAdd(m, 1, x);
      FermatLittle(p, m);
      calc {
        Pow(m, 1 + k * (p - 1)) % p;
        (Pow(m, p) * Pow(m, x)) % p;
        { ModMul(Pow(m, p), Pow(m, x), p); }
        ((Pow(m, p) % p) * (Pow(m, x) % p)) % p;
        ((Pow(m, 1) % p) * (Pow(m, x) % p)) % p;
        { ModMul(Pow(m, 1), Pow(m, x), p); }
        (Pow(m, 1) * Pow(m, x)) % p;
        Pow(m, 1 + x) % p;
      }
    }
  }
}

/** Exact integer arithmetic: powers, divisibility and the facts about
    Euclidean division and remainders that the number theory relies on.
    Dafny's `/` and `%` are Euclidean: the remainder is never negative. */
module Arith {

  /** `b` raised to the power `x`. */
  function Pow(b: nat, x: nat): nat
  {
    if x == 0 then 1 else b * Pow(b, x - 1)
  }

  /** `d` divides `x`; zero divides only zero. */
  predicate Divides(d: int, x: int)
  {
    if d == 0 then x == 0 else x % d == 0
  }

  function Abs(x: int): nat
  {
    if x < 0 then -x else x
  }

  /** A non-zero multiple of `d` is at least `d` in absolute value. */
  lemma MulAbsAtLeast(d: int, t: int)
    requires t != 0
    ensures Abs(d * t) >= Abs(d)
  {
    var a, u := Abs(d), Abs(t);
    assert a * u == a * (u - 1) + a;
    assert a * (u - 1) >= 0;
    assert Abs(d * t) == a * u;
  }

  /** Quotient and remainder are determined by the division equation. */
  lemma DivModUnique(x: int, d: int, q: int, r: int)
    requires d != 0
    requires x == d * q + r
    requires 0 <= r < Abs(d)
    ensures x / d == q && x % d == r
  {
    var q0, r0 := x / d, x % d;
    assert x == d * q0 + r0;
    assert d * (q - q0) == r0 - r;
    if q - q0 != 0 {
      MulAbsAtLeast(d, q - q0);
    }
  }

  /** Adding a multiple of `d` does not change the remainder. */
  lemma ModAddMultiple(x: int, d: int, k: int)
    requires d != 0
    ensures (x + d * k) % d == x % d
  {
    assert x + d * k == d * (x / d + k) + x % d;
    DivModUnique(x + d * k, d, x / d + k, x % d);
  }

  lemma ModOfMultiple(d: int, k: int)
    requires d != 0
    ensures (d * k) % d == 0 && (d * k) / d == k
  {
    DivModUnique(d * k, d, k, 0);
  }

  /** A value already below the modulus is its own remainder. */
  lemma ModSmall(x: int, n: int)
    requires 0 <= x < n
    ensures x % n == x
  {
    DivModUnique(x, n, 0, x);
  }

  lemma ModAdd(a: int, b: int, n: int)
    requires n > 0
    ensures (a + b) % n == (a % n + b % n) % n
  {
    var qa, qb := a / n, b / n;
    assert a + b == (a % n + b % n) + n * (qa + qb);
    ModAddMultiple(a % n + b % n, n, qa + qb);
  }

  lemma ProductExpansion(a: int, b: int, n: int, qa: int, ra: int, qb: int, rb: int)
    requires a == n * qa + ra && b == n * qb + rb
    ensures a * b == ra * rb + n * (n * qa * qb + qa * rb + ra * qb)
  {
  }

  lemma ModMul(a: int, b: int, n: int)
    requires n > 0
    ensures (a * b) % n == ((a % n) * (b % n)) % n
  {
    var qa, ra, qb, rb := a / n, a % n, b / n, b % n;
    ProductExpansion(a, b, n, qa, ra, qb, rb);
    ModAddMultiple(ra * rb, n, n * qa * qb + qa * rb + ra * qb);
  }

  /** Equal remainders mean the difference is a multiple of the modulus. */
  lemma SameRemainderDivides(a: int, b: int, n: int)
    requires n > 0
    requires a % n == b % n
    ensures Divides(n, a - b)
  {
    assert a - b == n * (a / n - b / n);
    ModOfMultiple(n, a / n - b / n);
  }

  /** A multiple of `n` away from `b` has `b`'s remainder. */
  lemma DividesSameRemainder(a: int, b: int, n: int)
    requires n > 0
    requires Divides(n, a - b)
    ensures a % n == b % n
  {
    var k := (a - b) / n;
    assert a - b == n * k;
    ModAddMultiple(b, n, k);
  }

  lemma DividesIntro(d: int, x: int, k: int)
    requires x == d * k
    ensures Divides(d, x)
  {
    if d != 0 {
      ModOfMultiple(d, k);
    }
  }

  lemma DividesElim(d: int, x: int) returns (k: int)
    requires Divides(d, x)
    ensures x == d * k
  {
    if d == 0 {
      k := 0;
    } else {
      k := x / d;
    }
  }

  lemma ProductAssociates(a: int, b: int, c: int)
    ensures a * (b * c) == (a * b) * c
  {
  }

  /** A divisor of a divisor divides. */
  lemma DividesTransitive(a: int, b: int, c: int)
    requires Divides(a, b) && Divides(b, c)
    ensures Divides(a, c)
  {
    var kb := DividesElim(a, b);
    var kc := DividesElim(b, c);
    ProductAssociates(a, kb, kc);
    DividesIntro(a, c, kb * kc);
  }

  /** Divisibility is closed under integer linear combinations. */
  lemma DividesLinear(d: int, x: int, y: int, s: int, t: int)
    requires Divides(d, x) && Divides(d, y)
    ensures Divides(d, x * s + y * t)
  {
    var kx := DividesElim(d, x);
    var ky := DividesElim(d, y);
    LinearFactor(d, x, y, s, t, kx, ky);
    DividesIntro(d, x * s + y * t, kx * s + ky * t);
  }

  lemma LinearFactor(d: int, x: int, y: int, s: int, t: int, kx: int, ky: int)
    requires x == d * kx && y == d * ky
    ensures x * s + y * t == d * (kx * s + ky * t)
  {
    ProductAssociates(d, kx, s);
    ProductAssociates(d, ky, t);
  }

  /** A positive divisor of a positive number is no larger than it. */
  lemma DividesBound(d: int, x: int)
    requires d > 0 && x > 0 && Divides(d, x)
    ensures d <= x
  {
    var k := DividesElim(d, x);
    if k != 0 {
      MulAbsAtLeast(d, k);
    }
  }

  lemma PowPositive(b: nat, x: nat)
    requires b > 0
    ensures Pow(b, x) > 0
  {
    if x > 0 {
      PowPositive(b, x - 1);
    }
  }

  lemma {:induction false} PowAdd(b: nat, x: nat, y: nat)
    ensures Pow(b, x + y) == Pow(b, x) * Pow(b, y)
  {
    if x > 0 {
      PowAdd(b, x - 1, y);
      assert Pow(b, x + y) == b * Pow(b, x - 1 + y);
    }
  }

  lemma {:induction false} PowMul(b: nat, x: nat, y: nat)
    ensures Pow(b, x * y) == Pow(Pow(b, x), y)
  {
    if y > 0 {
      PowMul(b, x, y - 1);
      var a: nat := x * (y - 1);
      assert x * y == x + a;
      PowAdd(b, x, a);
    }
  }

  /** Reducing the base first does not change a power's remainder. */
  lemma {:induction false} PowMod(b: nat, x: nat, n: nat)
    requires n > 0
    ensures Pow(b % n, x) % n == Pow(b, x) % n
  {
    if x > 0 {
      PowMod(b, x - 1, n);
      calc {
        Pow(b % n, x) % n;
        ((b % n) * Pow(b % n, x - 1)) % n;
        { ModMul(b % n, Pow(b % n, x - 1), n); ModSmall(b % n, n); }
        ((b % n) * (Pow(b % n, x - 1) % n)) % n;
        ((b % n) * (Pow(b, x - 1) % n)) % n;
        { ModMul(b, Pow(b, x - 1), n); }
        (b * Pow(b, x - 1)) % n;
      }
    }
  }

  /** Powers of a base of at least two grow strictly. */
  lemma {:induction false} PowStrictlyIncreasing(b: nat, x: nat, y: nat)
    requires b >= 2 && x < y
    ensures Pow(b, x) < Pow(b, y)
  {
    PowPositive(b, y - 1);
    if x < y - 1 {
      PowStrictlyIncreasing(b, x, y - 1);
    }
  }

  /** Multiplying by a non-negative factor preserves order. */
  lemma MulMonotone(a: int, b: int, p: int)
    requires a <= b && p >= 0
    ensures a * p <= b * p
  {
    assert b * p - a * p == (b - a) * p;
  }
}

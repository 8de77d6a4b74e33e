/** The RSA transform of example_rsa.py: encryption `pow(m, e, n)` and
    decryption `pow(c, d, n)`, both three-argument modular exponentiation. */
module Cipher {
  import opened Arith

  /** Reducing the left factor first does not change a product's remainder. */
  lemma ModMulLeft(a: int, b: int, n: int)
    requires n > 0
    ensures ((a % n) * b) % n == (a * b) % n
  {
    ModMul(a % n, b, n);
    ModMul(a, b, n);
    ModSmall(a % n, n);
  }

  lemma {:induction false} PowSquare(base: nat, h: nat)
    ensures Pow(base, 2 * h) == Pow(base * base, h)
  {
    assert Pow(base, 1) == base;
    assert Pow(base, 2) == base * base;
    PowMul(base, 2, h);
  }

  /** The squared base may be reduced modulo n without changing the result. */
  lemma ReducedBase(r: int, c: nat, h: nat, n: nat)
    requires n > 0
    ensures (r * Pow(c % n, h)) % n == (r * Pow(c, h)) % n
  {
    var p1, p2 := Pow(c % n, h), Pow(c, h);
    PowMod(c, h, n);
    ModMulLeft(p1, r, n);
    ModMulLeft(p2, r, n);
    assert r * p1 == p1 * r && r * p2 == p2 * r;
  }

  /** One round of square-and-multiply keeps r * base^k fixed modulo n. */
  lemma SquareMultiplyStep(r: nat, base: nat, k: nat, n: nat)
    requires n > 0 && r < n && k > 0
    ensures var r' := if k % 2 == 1 then (r * base) % n else r;
      (r' * Pow((base * base) % n, k / 2)) % n == (r * Pow(base, k)) % n
  {
    var h := k / 2;
    var sq := Pow(base * base, h);
    PowSquare(base, h);
    if k % 2 == 1 {
      var r' := (r * base) % n;
      assert k == 2 * h + 1;
      assert Pow(base, k) == base * sq;
      ReducedBase(r', base * base, h, n);
      ModMulLeft(r * base, sq, n);
      assert (r * base) * sq == r * (base * sq);
    } else {
      assert k == 2 * h;
      ReducedBase(r, base * base, h, n);
    }
  }

  /** Before the first round: 1 * (b mod n)^x has b^x's remainder. */
  lemma ModPowStart(b: nat, x: nat, n: nat)
    requires n > 0
    ensures ((1 % n) * Pow(b % n, x)) % n == Pow(b, x) % n
  {
    PowMod(b, x, n);
    ModMulLeft(1, Pow(b % n, x), n);
  }

  /** Python's `pow(b, x, n)` for n > 0 (n == 0 raises ValueError), by
      right-to-left square-and-multiply. */
  method ModPow(b: nat, x: nat, n: nat) returns (r: nat)
    requires n > 0
    ensures r == Pow(b, x) % n
  {
    r := 1 % n;
    var base: nat := b % n;
    var k := x;
    ModPowStart(b, x, n);
    while k > 0
      invariant r < n && base < n
      invariant (r * Pow(base, k)) % n == Pow(b, x) % n
      decreases k
    {
      SquareMultiplyStep(r, base, k, n);
      if k % 2 == 1 {
        r := (r * base) % n;
      }
      base := (base * base) % n;
      k := k / 2;
    }
    assert r * Pow(base, 0) == r;
    ModSmall(r, n);
  }

  /** Worked values: 4^13 mod 497 = 445; with n = 3233, 65^7 mod n = 1317
      and 65^17 mod n = 2790. */
  lemma ModPowExamples()
    ensures Pow(4, 13) % 497 == 445
    ensures Pow(65, 7) % 3233 == 1317
    ensures Pow(65, 17) % 3233 == 2790
  {
  }
}

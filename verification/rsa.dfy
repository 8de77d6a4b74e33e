/** The end-to-end RSA demonstration of example_rsa.py: derive the keys
    from two primes, encode the message, encrypt, decrypt and decode. */
module Rsa {
  import opened Wrappers
  import opened Arith
  import opened Euclid
  import opened Primes
  import opened KeyGen
  import opened Codec
  import opened Cipher

  /** Modulus, totient and the public and private exponents. */
  datatype Keys = Keys(n: nat, phi: int, e: nat, d: nat)

  /** The ways the demonstration stops before printing a recovered text. */
  datatype RunError =
    | MessageTooLarge   // the length guard before encryption calls exit(1)
    | NoPublicExponent  // calculate_e returned None; using it raises TypeError
    | NotHexDecodable   // bytes.fromhex raises ValueError on an odd digit count

  /** The keys derived from p and q: n = p * q, phi = (p - 1) * (q - 1), the
      first public exponent of the scan and the private exponent of the
      first candidate i of the scan. */
  ghost predicate DerivedKeys(p: nat, q: nat, k: Keys)
  {
    && k.n == p * q
    && k.phi == (p - 1) * (q - 1)
    && IsFirstPublicExponent(k.phi, k.e)
    && exists i :: IsFirstPrivateWitness(k.phi, k.e, i) && k.e * k.d == k.phi * i + 1
  }

  /** Key derivation: modulus and totient, then `calculate_e` and
      `calculate_d`. It fails exactly when the totient is at most 2, where
      `calculate_e` finds nothing; `calculate_d` cannot fail after a
      successful `calculate_e`. */
  method GenerateKeys(p: nat, q: nat) returns (r: Result<Keys, RunError>)
    ensures r.Success? <==> (p - 1) * (q - 1) >= 3
    ensures r.Success? ==> DerivedKeys(p, q, r.value)
    ensures r.Success? ==> (r.value.e * r.value.d) % r.value.phi == 1
    ensures r.Failure? ==> r.error == NoPublicExponent
  {
    var n := p * q;
    var phi := (p - 1) * (q - 1);
    var e := CalculateE(phi);
    if e.None? {
      return Failure(NoPublicExponent);
    }
    var d := CalculateD(phi, e.value);
    var dv := d.value;
    ghost var i :| IsFirstPrivateWitness(phi, e.value, i) && e.value * dv == phi * i + 1;
    return Success(Keys(n, phi, e.value, dv));
  }

  /** Decrypting an encryption is raising to the power e * d modulo n. */
  lemma PowPowMod(m: nat, e: nat, d: nat, n: nat)
    requires n > 0
    ensures Pow(Pow(m, e) % n, d) % n == Pow(m, e * d) % n
  {
    PowMod(Pow(m, e), d, n);
    PowMul(m, e, d);
  }

  /** An exponent 1 + k (p - 1) acts as the identity modulo a prime p. */
  lemma FermatExponent(p: nat, m: nat, x: nat, k: nat)
    requires IsPrime(p) && x == 1 + k * (p - 1)
    ensures Pow(m, x) % p == m % p
  {
    FermatPower(p, m, k);
  }

  lemma ExponentShapes(p: int, q: int, i: int, ed: int)
    requires ed == (p - 1) * (q - 1) * i + 1
    ensures ed == 1 + ((q - 1) * i) * (p - 1)
    ensures ed == 1 + ((p - 1) * i) * (q - 1)
  {
  }

  /** Textbook RSA correctness: for distinct primes p, q and exponents with
      e * d = (p - 1)(q - 1) i + 1, decrypting the encryption of any m < pq
      returns m. */
  lemma RsaRoundTrip(p: nat, q: nat, e: nat, d: nat, i: nat, m: nat)
    requires IsPrime(p) && IsPrime(q) && p != q
    requires e * d == (p - 1) * (q - 1) * i + 1
    requires m < p * q
    ensures Pow(Pow(m, e) % (p * q), d) % (p * q) == m
  {
    var n, ed := p * q, e * d;
    var x := Pow(m, ed);
    PowPowMod(m, e, d, n);
    ExponentShapes(p, q, i, ed);
    MulMonotone(0, q - 1, i);
    MulMonotone(0, p - 1, i);
    var kp: nat, kq: nat := (q - 1) * i, (p - 1) * i;
    FermatExponent(p, m, ed, kp);
    FermatExponent(q, m, ed, kq);
    SameRemainderDivides(x, m, p);
    SameRemainderDivides(x, m, q);
    DistinctPrimesDivide(p, q, x - m);
    DividesSameRemainder(x, m, n);
    ModSmall(m, n);
  }

  /** What the demonstration prints: the message as an integer, the
      ciphertext, the decrypted integer and the decoded bytes. */
  datatype Transcript = Transcript(keys: Keys, plain: nat, cipher: nat, recovered: nat, text: seq<Byte>)

  /** The whole script, with the primes and the message as parameters and
      the length guard as the exact comparison m < n. */
  method Run(p: nat, q: nat, message: seq<Byte>) returns (r: Result<Transcript, RunError>)
    ensures r == Failure(MessageTooLarge) <==> BytesToLong(message) >= p * q
    ensures BytesToLong(message) < p * q ==>
      (r == Failure(NoPublicExponent) <==> (p - 1) * (q - 1) < 3)
    ensures r.Success? ==>
      var t := r.value;
      && DerivedKeys(p, q, t.keys)
      && t.plain == BytesToLong(message) < t.keys.n
      && t.cipher == Pow(t.plain, t.keys.e) % t.keys.n
      && t.recovered == Pow(t.cipher, t.keys.d) % t.keys.n
      && Decode(t.recovered) == Some(t.text)
    ensures IsPrime(p) && IsPrime(q) && p != q && BytesToLong(message) < p * q ==>
      && (r.Success? ==> r.value.recovered == r.value.plain)
      && ((p - 1) * (q - 1) >= 3 ==> (r.Success? <==> Decode(BytesToLong(message)).Some?))
      && (r.Success? ==> (r.value.text == message <==> |message| > 0 && message[|message| - 1] >= 16))
      && ((p - 1) * (q - 1) >= 3 && |message| > 0 && message[|message| - 1] >= 16 ==>
            r.Success? && r.value.text == message)
      && ((p - 1) * (q - 1) >= 3 && (|message| == 0 || 0 < message[|message| - 1] < 16) ==>
            r == Failure(NotHexDecodable))
    ensures r == Failure(NotHexDecodable) ==>
      exists k :: DerivedKeys(p, q, k) && k.n > 0
        && Decode(Pow(Pow(BytesToLong(message), k.e) % k.n, k.d) % k.n).None?
  {
    var m := BytesToLong(message);
    if m >= p * q {
      return Failure(MessageTooLarge);
    }
    var keys := GenerateKeys(p, q);
    if keys.Failure? {
      return Failure(keys.error);
    }
    var k := keys.value;
    var c := ModPow(m, k.e, k.n);
    var m' := ModPow(c, k.d, k.n);
    var text := Decode(m');
    if IsPrime(p) && IsPrime(q) && p != q {
      ghost var i :| IsFirstPrivateWitness(k.phi, k.e, i) && k.e * k.d == k.phi * i + 1;
      RsaRoundTrip(p, q, k.e, k.d, i, m);
      DecodeInvertsEncode(message);
      if |message| == 0 || 0 < message[|message| - 1] < 16 {
        DecodeRejectsSmallTopByte(message);
      }
    }
    if text.None? {
      assert DerivedKeys(p, q, k) && k.n > 0;
      return Failure(NotHexDecodable);
    }
    return Success(Transcript(k, m, c, m', text.value));
  }

  /** p = 61, q = 53 with the one-byte message "A" (0x41 = 65): the keys are
      n = 3233, phi = 3120, e = 7, d = 1783, the ciphertext is 1317 and the
      message comes back. */
  method SmallPrimesExample() returns (r: Result<Transcript, RunError>)
    ensures r == Success(Transcript(Keys(3233, 3120, 7, 1783), 65, 1317, 65, [65]))
  {
    assert NoDivisorFrom(61, 2, 8) && NoDivisorFrom(53, 2, 8);
    PrimeByTrialDivision(61, 7);
    PrimeByTrialDivision(53, 7);
    assert BytesToLong([65]) == 65;
    r := Run(61, 53, [65]);
    var k := r.value.keys;
    SmallKeyExample();
    FirstPublicExponentUnique(3120, k.e, 7);
    var i :| IsFirstPrivateWitness(3120, 7, i) && 7 * k.d == 3120 * i + 1;
    FirstPrivateWitnessUnique(3120, 7, i, 4);
    ModPowExamples();
  }
}

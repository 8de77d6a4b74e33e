# Textbook RSA walk-through, modelled in Dafny

`example_rsa.py` is a short teaching script for "textbook" RSA.
It does the following, in order:

1. Reads a text message as a little-endian integer (`bytes_to_long`).
2. Derives the modulus `n = p*q` and the totient `phi = (p-1)*(q-1)` from two hard-coded primes.
3. Refuses messages that look too long for `n`.
4. Picks the public exponent `e`. This is the smallest value in `[2, phi)` coprime to `phi` (`calculate_e`).
5. Picks the private exponent `d`. This is `(phi*i + 1) / e` for the first `i` in `[1, phi)` where that division is exact (`calculate_d`).
6. Encrypts with `pow(m, e, n)` and decrypts with `pow(c, d, n)`.
7. Prints the recovered bytes. It gets them by formatting the integer in hexadecimal, reading the hex as bytes and reversing them.

The Dafny project models each of these steps as a function or method. Each one has a contract stating what its result means. The project also proves the properties that tie the steps together:

- The key search always succeeds once `phi >= 3`. It yields `e*d ≡ 1 (mod phi)`.
- Square-and-multiply computes `b^x mod n`.
- For distinct primes and `m < n`, decryption inverts encryption. The proof goes through Fermat's little theorem and Euclid's lemma.
- The hex-and-reverse printing step inverts `bytes_to_long` exactly when the last byte of the message is at least `0x10`.

Modules, one per file:

| module | file | contents |
|---|---|---|
| `Wrappers` | `wrappers.dfy` | `Option` and `Result` |
| `Arith` | `arith.dfy` | `Pow`, `Divides` and modular-arithmetic lemmas |
| `Euclid` | `gcd.dfy` | Euclid's gcd, its characterisation, its symmetry (`GcdCommutes`) and Bézout coefficients |
| `Primes` | `primes.dfy` | primality, trial division, Euclid's lemma, binomial theorem, Fermat's little theorem |
| `KeyGen` | `keygen.dfy` | Python `divmod`, `calculate_e`, `calculate_d` |
| `Codec` | `codec.dfy` | `bytes_to_long`, `format(c, 'x')`, `bytes.fromhex`, `[::-1]` |
| `Cipher` | `cipher.dfy` | three-argument `pow` |
| `Rsa` | `rsa.dfy` | key derivation, the RSA round trip and the whole script as one method |

Some numbers are pinned down for the small key `p = 61`, `q = 53`:

- The script's own `calculate_e` picks `e = 7` for `phi = 3120`, not the often-quoted `e = 17`.
- `calculate_d` then gives `d = 1783` (with `i = 4`).
- The message byte `65` (`"A"`) encrypts to `65^7 mod 3233 = 1317`.
- The frequently quoted ciphertext `2790` is `65^17 mod 3233`. It belongs to `e = 17`, which this script never chooses.

`Cipher.ModPowExamples` and `Rsa.SmallPrimesExample` prove these values.

## Model

| member | source | states |
|---|---|---|
| Euclid.GcdIsGreatestCommonDivisor | example_rsa.py:36 | the gcd that the coprimality test relies on divides both arguments, and every common divisor of the two divides it |
| KeyGen.CalculateE | example_rsa.py:33-37 | returns a value exactly when phi ≥ 3 (otherwise the range is empty and the function falls off its end); the value e has 2 ≤ e < phi, gcd(phi, e) = 1, and no j in [2, e) is coprime to phi |
| KeyGen.DivMod | example_rsa.py:42 | Python `divmod` for a nonzero divisor: a = b·q + r with r of the divisor's sign and smaller than the divisor in absolute value (floor division, also for negative operands) |
| KeyGen.CalculateD | example_rsa.py:39-44 | returns a value iff some i in [1, phi) makes phi·i + 1 divisible by e; the value d then satisfies e·d = phi·i + 1 for the first such i; it always returns a value when e is an admissible public exponent, and never when gcd(phi, e) ≠ 1; for phi > 1 the value is the inverse of e modulo phi |
| KeyGen.WitnessForcesCoprime | example_rsa.py:41-44 | an exact division of phi·i + 1 by e is only possible when gcd(phi, e) = 1 |
| KeyGen.PrivateWitnessExists | example_rsa.py:41-44 | for 2 ≤ e < phi with gcd(phi, e) = 1 there is a witness i with 1 ≤ i < e, hence inside the scanned range |
| KeyGen.PrivateExponentInverts | example_rsa.py:9-10 | a d with e·d = phi·i + 1 is the inverse of e modulo phi: e·d mod phi = 1 |
| Codec.BytesToLong | example_rsa.py:30-31 | the little-endian integer of a byte string is below 256^length |
| Codec.BytesToLongIsWeightedSum | example_rsa.py:30-31 | the little-endian integer equals Σ bs[k] · 256^k |
| Codec.BytesToLongInjective | example_rsa.py:30-31 | two byte strings of the same length with the same integer are equal |
| Codec.Reverse | example_rsa.py:82 | `[::-1]` keeps the length and puts s[len−1−i] at position i |
| Codec.FormatHex | example_rsa.py:82 | `format(c, 'x')` is a non-empty lower-case hex string whose value is c; it is "0" for c = 0 and otherwise has no leading zero, so 16^(len−1) ≤ c < 16^len |
| Codec.FromHex | example_rsa.py:82 | `bytes.fromhex` succeeds iff the string has even length and consists of hex digits; byte k is read from digits 2k and 2k+1 |
| Codec.FromHexValue | example_rsa.py:82 | reversing the bytes `fromhex` yields and reading them little-endian gives the big-endian value of the hex string |
| Codec.HexLength | example_rsa.py:82 | for a non-empty message whose last byte is non-zero, the hex form of its integer has 2·len − 1 digits when that byte is 0x01–0x0f, and 2·len digits when it is 0x10 or more |
| Codec.Decode | example_rsa.py:82 | the printing step succeeds iff the hex form of c has an even number of digits; the bytes it yields are non-empty, read back little-endian to c, and end in a byte ≥ 0x10 |
| Codec.DecodeInvertsEncode | example_rsa.py:82 | decoding the integer of a message gives back exactly that message iff the message is non-empty and its last byte is ≥ 0x10 |
| Codec.DecodeRejectsSmallTopByte | example_rsa.py:82 | for the empty message, or one whose last byte is 0x01–0x0f, the printing step raises |
| Cipher.ModPow | example_rsa.py:75-78 | three-argument `pow` (square-and-multiply) returns b^x mod n |
| Cipher.ModPowExamples | example_rsa.py:75 | 65^7 mod 3233 = 1317, 65^17 mod 3233 = 2790, 4^13 mod 497 = 445 |
| Rsa.GenerateKeys | example_rsa.py:54-69 | key derivation succeeds iff (p−1)(q−1) ≥ 3; the keys have n = p·q, phi = (p−1)(q−1), e the first public exponent, e·d = phi·i + 1 for the first witness i, and hence e·d mod phi = 1; the only failure is a missing public exponent |
| Rsa.RsaRoundTrip | example_rsa.py:54-78 | for distinct primes p, q, e·d = (p−1)(q−1)·i + 1 and m < p·q, decrypting the encryption of m gives m back |
| Rsa.Run | example_rsa.py:46-82 | the whole script: the run fails with `MessageTooLarge` iff the message's integer m is ≥ n; below that guard it fails with `NoPublicExponent` iff phi < 3; it fails at the printing step only when, for the derived keys, (m^e mod n)^d mod n cannot be decoded; on success the keys are the derived keys, the ciphertext is m^e mod n, the recovered integer is c^d mod n and the printed bytes decode it; for distinct primes and m < n the recovered integer is m, the printed bytes equal the message iff its last byte is ≥ 0x10, and when phi ≥ 3: the run succeeds iff the printing step can decode m, with a last byte ≥ 0x10 it succeeds and prints the original message, and with an empty message or a last byte in 0x01–0x0f it fails at the printing step |
| Rsa.SmallPrimesExample | example_rsa.py:46-82 | with p = 61, q = 53 and message "A" the script derives n = 3233, phi = 3120, e = 7, d = 1783, encrypts 65 to 1317 and prints "A" again |

## Left out

- Rsa.Run: the length guard is modelled as the exact comparison m < n. The script instead compares `round(log10(m)) + 1` with `round(log10(n)) + 1` in floating point (lines 59-65). Every message that guard lets through has m < n. The converse does not hold: for m = 4, n = 5 the guard refuses. So the script refuses a superset of what the model refuses. Floating point is not modelled.
- Rsa.Run: for a message whose integer is 0 (the empty message, or one made only of zero bytes), `log10(0)` raises in the script. The model lets m = 0 past the guard whenever n > 0. The run then ends in `NotHexDecodable` when phi ≥ 3, because `format(0, 'x')` is the single digit "0", and in `NoPublicExponent` when phi < 3.
- Rsa.Run: when p or q is 0, n = 0 and `math.log10(n)` raises `ValueError` in the script (line 61, or already line 60 when m is also 0). The model reports `MessageTooLarge` instead, because every m is ≥ 0 = n.
- Rsa.Run: printing (lines 64, 80-82) and `exit(1)` are not modelled. The method returns a `Result` whose failure case names the reason.
- Rsa.Run: the message is taken as bytes. `str.encode()` (UTF-8) is not modelled.
- Rsa.GenerateKeys: the hard-coded primes (lines 22-23 and 51-52) become the parameters p and q. The script never checks primality, so neither does the model. Primality is a precondition of the round-trip lemma only. Negative p or q are not modelled (the parameters are `nat`).
- Rsa.GenerateKeys: when `calculate_e` returns `None`, the script carries on and crashes with a `TypeError`: in `divmod` inside `calculate_d` when phi = 2, or in `pow` when phi ≤ 1 (the scan in `calculate_d` is then empty). The model reports this as `NoPublicExponent`. A `None` from `calculate_d` after `calculate_e` succeeded cannot happen (`KeyGen.CalculateD` guarantees a value for an admissible e), so it has no failure case.
- KeyGen.CalculateD: requires e ≠ 0 whenever the loop runs (phi ≥ 2). With e = 0, Python's `divmod` raises `ZeroDivisionError`, and that crash is not modelled.
- Cipher.ModPow: requires n > 0. `pow` with modulus 0 raises `ValueError`, and negative moduli are not modelled. Only the result of `pow` is modelled, not CPython's windowed exponentiation algorithm.
- Codec.FromHex: `bytes.fromhex` also skips whitespace between byte pairs. `format(c, 'x')` never produces whitespace, so that case is not modelled.
- Euclid.GcdIsGreatestCommonDivisor: `math.gcd` is modelled by Euclid's algorithm. Only its value matters, not CPython's algorithm.
- The running time of the linear searches in `calculate_e` and `calculate_d` is not modelled.

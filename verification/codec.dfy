/** The message codec of example_rsa.py. Encoding reads the message bytes as
    a little-endian integer (`int.from_bytes(..., byteorder='little')`).
    Decoding renders the integer as minimal lower-case hex (`format(c, 'x')`),
    parses the hex back into bytes (`bytes.fromhex`) and reverses them. */
module Codec {
  import opened Wrappers
  import opened Arith

  type Byte = b: int | 0 <= b < 256

  /** `int.from_bytes(bs, byteorder='little')`: the first byte is the least
      significant. */
  function BytesToLong(bs: seq<Byte>): (r: nat)
    ensures r < Pow(256, |bs|)
  {
    if |bs| == 0 then 0 else bs[0] + 256 * BytesToLong(bs[1..])
  }

  /** The sum of bs[j] * 256^j over the first k bytes. */
  function WeightedSum(bs: seq<Byte>, k: nat): nat
    requires k <= |bs|
  {
    if k == 0 then 0 else WeightedSum(bs, k - 1) + bs[k - 1] * Pow(256, k - 1)
  }

  lemma AppendArith(a: int, b: int, x: int, p: int)
    ensures a + 256 * (b + x * p) == (a + 256 * b) + x * (256 * p)
  {
  }

  /** Appending a byte adds it at the next power of 256. */
  lemma {:induction false} BytesToLongAppend(u: seq<Byte>, x: Byte)
    ensures BytesToLong(u + [x]) == BytesToLong(u) + x * Pow(256, |u|)
  {
    if |u| > 0 {
      var v := u + [x];
      assert v[0] == u[0] && v[1..] == u[1..] + [x];
      BytesToLongAppend(u[1..], x);
      var p := Pow(256, |u| - 1);
      var b := BytesToLong(u[1..]);
      assert BytesToLong(v) == u[0] + 256 * (b + x * p);
      AppendArith(u[0], b, x, p);
      assert Pow(256, |u|) == 256 * p;
    }
  }

  lemma {:induction false} PrefixIsWeightedSum(bs: seq<Byte>, k: nat)
    requires k <= |bs|
    ensures BytesToLong(bs[..k]) == WeightedSum(bs, k)
  {
    if k > 0 {
      PrefixIsWeightedSum(bs, k - 1);
      assert bs[..k] == bs[..k - 1] + [bs[k - 1]];
      BytesToLongAppend(bs[..k - 1], bs[k - 1]);
    }
  }

  /** `bytes_to_long` is the little-endian sum of bs[k] * 256^k. */
  lemma BytesToLongIsWeightedSum(bs: seq<Byte>)
    ensures BytesToLong(bs) == WeightedSum(bs, |bs|)
  {
    PrefixIsWeightedSum(bs, |bs|);
    assert bs[..|bs|] == bs;
  }

  /** The last (most significant) byte fixes the value to within one unit
      of 256^(|bs| - 1). */
  lemma TopByteBounds(bs: seq<Byte>)
    requires |bs| > 0
    ensures var t, p := bs[|bs| - 1], Pow(256, |bs| - 1);
      t * p <= BytesToLong(bs) < (t + 1) * p
  {
    var u := bs[..|bs| - 1];
    assert bs == u + [bs[|bs| - 1]];
    BytesToLongAppend(u, bs[|bs| - 1]);
    BelowNextMultiple(BytesToLong(u), bs[|bs| - 1], Pow(256, |bs| - 1));
  }

  lemma BelowNextMultiple(lo: int, t: int, p: int)
    requires 0 <= lo < p
    ensures t * p <= lo + t * p < (t + 1) * p
  {
  }

  /** Equal values of equally long byte strings mean equal byte strings. */
  lemma {:induction false} BytesToLongInjective(a: seq<Byte>, b: seq<Byte>)
    requires |a| == |b| && BytesToLong(a) == BytesToLong(b)
    ensures a == b
  {
    if |a| > 0 {
      DivModUnique(BytesToLong(a), 256, BytesToLong(a[1..]), a[0]);
      DivModUnique(BytesToLong(b), 256, BytesToLong(b[1..]), b[0]);
      BytesToLongInjective(a[1..], b[1..]);
      assert a == [a[0]] + a[1..] && b == [b[0]] + b[1..];
    }
  }

  /** Python's `[::-1]`. */
  function Reverse<T>(s: seq<T>): (r: seq<T>)
    ensures |r| == |s|
    ensures forall i :: 0 <= i < |s| ==> r[i] == s[|s| - 1 - i]
  {
    if |s| == 0 then [] else [s[|s| - 1]] + Reverse(s[..|s| - 1])
  }

  predicate IsHexDigit(c: char)
  {
    '0' <= c <= '9' || 'a' <= c <= 'f' || 'A' <= c <= 'F'
  }

  predicate AllHexDigits(s: string)
  {
    forall i :: 0 <= i < |s| ==> IsHexDigit(s[i])
  }

  /** The value of one hex digit; both letter cases are accepted. */
  function DigitValue(c: char): (v: nat)
    requires IsHexDigit(c)
    ensures v < 16
    ensures v == 0 <==> c == '0'
  {
    if '0' <= c <= '9' then c as int - '0' as int
    else if 'a' <= c <= 'f' then c as int - 'a' as int + 10
    else c as int - 'A' as int + 10
  }

  /** The lower-case digits `format(c, 'x')` writes. */
  const LowerDigits := "0123456789abcdef"

  function HexChar(v: nat): (c: char)
    requires v < 16
    ensures IsHexDigit(c) && DigitValue(c) == v
  {
    LowerDigits[v]
  }

  /** The big-endian value of a string of hex digits. */
  function HexValue(s: string): nat
    requires AllHexDigits(s)
  {
    if |s| == 0 then 0 else HexValue(s[..|s| - 1]) * 16 + DigitValue(s[|s| - 1])
  }

  /** Every character is one of the lower-case digits. */
  predicate IsLowerHex(s: string)
  {
    forall i :: 0 <= i < |s| ==> s[i] in LowerDigits
  }

  /** c has exactly l hex digits: 16^(l - 1) <= c < 16^l. */
  predicate HasHexLength(c: nat, l: nat)
  {
    l >= 1 && Pow(16, l - 1) <= c < Pow(16, l)
  }

  /** A single digit renders c < 16. */
  lemma FormatHexDigit(c: nat)
    requires c < 16
    ensures var r := [HexChar(c)];
      && AllHexDigits(r) && IsLowerHex(r)
      && HexValue(r) == c
      && (c > 0 ==> r[0] != '0' && HasHexLength(c, |r|))
  {
    var r := [HexChar(c)];
    assert r[..0] == [];
    assert Pow(16, 1) == 16;
  }

  /** Appending a digit multiplies the value by 16 and adds the digit. */
  lemma AppendDigit(h: string, d: nat)
    requires AllHexDigits(h) && IsLowerHex(h) && d < 16
    ensures var r := h + [HexChar(d)];
      && AllHexDigits(r) && IsLowerHex(r)
      && HexValue(r) == HexValue(h) * 16 + d
  {
    var r := h + [HexChar(d)];
    assert forall i :: 0 <= i < |r| ==> r[i] == if i < |h| then h[i] else HexChar(d);
    assert r[..|r| - 1] == h;
  }

  /** Appending the last digit of c to the rendering of c / 16. */
  lemma FormatHexStep(c: nat, h: string)
    requires c >= 16 && |h| >= 1 && AllHexDigits(h) && IsLowerHex(h)
    requires HexValue(h) == c / 16 && h[0] != '0'
    requires HasHexLength(c / 16, |h|)
    ensures var r := h + [HexChar(c % 16)];
      && AllHexDigits(r) && IsLowerHex(r)
      && HexValue(r) == c && r[0] != '0'
      && HasHexLength(c, |r|)
  {
    var d, q := c % 16, c / 16;
    AppendDigit(h, d);
    assert c == 16 * q + d;
    var r := h + [HexChar(d)];
    var p := Pow(16, |h| - 1);
    assert Pow(16, |h|) == 16 * p;
    assert Pow(16, |r|) == 16 * Pow(16, |h|);
    DigitShiftBounds(c, q, d, p);
  }

  /** Bounds carried from q to 16 * q + d over one more digit. */
  lemma DigitShiftBounds(c: int, q: int, d: int, p: int)
    requires c == 16 * q + d && 0 <= d < 16
    requires p <= q < 16 * p
    ensures 16 * p <= c < 16 * (16 * p)
  {
  }

  /** `format(c, 'x')` for c >= 0: minimal lower-case hex, "0" for zero. */
  function FormatHex(c: nat): (r: string)
    ensures |r| >= 1 && AllHexDigits(r) && IsLowerHex(r)
    ensures HexValue(r) == c
    ensures c == 0 ==> r == "0"
    ensures c > 0 ==> r[0] != '0' && HasHexLength(c, |r|)
  {
    if c < 16 then
      FormatHexDigit(c);
      [HexChar(c)]
    else
      var q := c / 16;
      assert q >= 1;
      var h := FormatHex(q);
      FormatHexStep(c, h);
      h + [HexChar(c % 16)]
  }

  lemma AllHexDigitsSplit(s: string)
    requires |s| >= 2
    ensures AllHexDigits(s) <==> IsHexDigit(s[0]) && IsHexDigit(s[1]) && AllHexDigits(s[2..])
  {
    if IsHexDigit(s[0]) && IsHexDigit(s[1]) && AllHexDigits(s[2..]) {
      forall i | 0 <= i < |s| ensures IsHexDigit(s[i]) {
        if i >= 2 { assert s[i] == s[2..][i - 2]; }
      }
    }
  }

  /** Dropping two leaves the parity unchanged. */
  lemma ParityStep(n: int)
    requires n >= 2
    ensures (n - 2) % 2 == n % 2
  {
    DivModUnique(n, 2, (n - 2) / 2 + 1, (n - 2) % 2);
  }

  /** Byte k of `bytes.fromhex(s)` is read from hex digits 2k and 2k + 1. */
  ghost predicate PairsDecoded(s: string, b: seq<Byte>)
    requires AllHexDigits(s) && 2 * |b| == |s|
  {
    forall k :: 0 <= k < |b| ==> b[k] == 16 * DigitValue(s[2 * k]) + DigitValue(s[2 * k + 1])
  }

  lemma PairsDecodedCons(s: string, rest: seq<Byte>, x: Byte)
    requires |s| >= 2 && AllHexDigits(s) && 2 * |rest| == |s| - 2
    requires AllHexDigits(s[2..]) && PairsDecoded(s[2..], rest)
    requires x == 16 * DigitValue(s[0]) + DigitValue(s[1])
    ensures PairsDecoded(s, [x] + rest)
  {
    var r := [x] + rest;
    forall k | 0 <= k < |r|
      ensures r[k] == 16 * DigitValue(s[2 * k]) + DigitValue(s[2 * k + 1])
    {
      if k > 0 {
        assert r[k] == rest[k - 1];
        assert s[2 * k] == s[2..][2 * (k - 1)] && s[2 * k + 1] == s[2..][2 * (k - 1) + 1];
      }
    }
  }

  /** `bytes.fromhex(s)` on a string without whitespace: every two hex
      digits make one byte; an odd length or a non-hex character raises
      ValueError, modelled as None. */
  function FromHex(s: string): (r: Option<seq<Byte>>)
    ensures r.Some? <==> |s| % 2 == 0 && AllHexDigits(s)
    ensures r.Some? ==> 2 * |r.value| == |s| && PairsDecoded(s, r.value)
    decreases |s|
  {
    if |s| == 0 then Some([])
    else if |s| == 1 || !IsHexDigit(s[0]) || !IsHexDigit(s[1]) then None
    else
      AllHexDigitsSplit(s);
      ParityStep(|s|);
      match FromHex(s[2..])
      case None => None
      case Some(rest) =>
        var x: Byte := 16 * DigitValue(s[0]) + DigitValue(s[1]);
        PairsDecodedCons(s, rest, x);
        Some([x] + rest)
  }

  lemma ShiftArith(a: int, p: int, b: int, x: int)
    ensures (a * p + b) * 16 + x == a * (16 * p) + (b * 16 + x)
  {
  }

  /** 256^k = 16^(2k): one byte is two hex digits. */
  lemma ByteIsTwoNibbles(k: nat)
    ensures Pow(256, k) == Pow(16, 2 * k)
  {
    PowMul(16, 2, k);
  }

  lemma ReverseCons<T>(x: T, rest: seq<T>)
    ensures Reverse([x] + rest) == Reverse(rest) + [x]
  {
  }

  /** The value of two hex digits. */
  lemma HexValuePair(u: string)
    requires |u| == 2 && AllHexDigits(u)
    ensures HexValue(u) == 16 * DigitValue(u[0]) + DigitValue(u[1])
  {
    var u0 := u[..1];
    assert u0 == [u[0]] && u0[..0] == [];
    assert HexValue(u0) == DigitValue(u[0]);
  }

  /** The value of a hex string split at position k. */
  lemma {:induction false} HexValueConcatAt(s: string, k: nat)
    requires k <= |s| && AllHexDigits(s)
    ensures AllHexDigits(s[..k]) && AllHexDigits(s[k..])
    ensures HexValue(s) == HexValue(s[..k]) * Pow(16, |s| - k) + HexValue(s[k..])
    decreases |s|
  {
    if k == |s| {
      assert s[..k] == s && s[k..] == [];
    } else {
      var s', d := s[..|s| - 1], s[|s| - 1];
      HexValueConcatAt(s', k);
      var v, v' := s[k..], s'[k..];
      assert s'[..k] == s[..k];
      assert v[..|v| - 1] == v' && v[|v| - 1] == d;
      ShiftArith(HexValue(s[..k]), Pow(16, |s'| - k), HexValue(v'), DigitValue(d));
    }
  }

  /** The value of a hex string split after its first two digits. */
  lemma HexValueSplit(s: string, x: int)
    requires |s| >= 2 && AllHexDigits(s)
    requires x == 16 * DigitValue(s[0]) + DigitValue(s[1])
    ensures AllHexDigits(s[2..])
    ensures HexValue(s) == x * Pow(16, |s| - 2) + HexValue(s[2..])
  {
    HexValueConcatAt(s, 2);
    var u := s[..2];
    assert u[0] == s[0] && u[1] == s[1];
    HexValuePair(u);
  }

  /** Reversing puts the first byte on top, with weight 256^|rest|. */
  lemma ReversedConsValue(x: Byte, rest: seq<Byte>)
    ensures BytesToLong(Reverse([x] + rest)) == BytesToLong(Reverse(rest)) + x * Pow(256, |rest|)
  {
    ReverseCons(x, rest);
    BytesToLongAppend(Reverse(rest), x);
  }

  /** One step of `FromHexValue`: the first pair of digits becomes the top
      byte of the reversed bytes. */
  lemma {:induction false} FromHexValueStep(s: string, x: Byte, rest: seq<Byte>)
    requires |s| >= 2 && AllHexDigits(s) && 2 * |rest| == |s| - 2
    requires x == 16 * DigitValue(s[0]) + DigitValue(s[1])
    requires AllHexDigits(s[2..]) && BytesToLong(Reverse(rest)) == HexValue(s[2..])
    ensures BytesToLong(Reverse([x] + rest)) == HexValue(s)
  {
    ReversedConsValue(x, rest);
    HexValueSplit(s, x);
    ByteIsTwoNibbles(|rest|);
    assert 2 * |rest| == |s| - 2;
  }

  /** The bytes of `bytes.fromhex(s)`, reversed, read little-endian, give the
      value of the hex string. */
  lemma {:induction false} FromHexValue(s: string)
    requires |s| % 2 == 0 && AllHexDigits(s)
    ensures BytesToLong(Reverse(FromHex(s).value)) == HexValue(s)
    decreases |s|
  {
    if |s| > 0 {
      AllHexDigitsSplit(s);
      ParityStep(|s|);
      var t := s[2..];
      var rest := FromHex(t).value;
      var x: Byte := 16 * DigitValue(s[0]) + DigitValue(s[1]);
      assert FromHex(s).value == [x] + rest;
      FromHexValue(t);
      FromHexValueStep(s, x, rest);
    }
  }

  /** `bytes.fromhex(format(c, 'x'))[::-1]`: None where fromhex raises. */
  function Decode(c: nat): (r: Option<seq<Byte>>)
    ensures r.Some? <==> |FormatHex(c)| % 2 == 0
    ensures r.Some? ==> |r.value| > 0 && BytesToLong(r.value) == c && r.value[|r.value| - 1] >= 16
  {
    var h := FormatHex(c);
    match FromHex(h)
    case None => None
    case Some(b) =>
      FromHexValue(h);
      Some(Reverse(b))
  }

  /** Two lengths that both bracket x between consecutive powers agree. */
  lemma LengthFromBounds(base: nat, x: nat, l1: nat, l2: nat)
    requires base >= 2 && l1 >= 1 && l2 >= 1
    requires Pow(base, l1 - 1) <= x < Pow(base, l1)
    requires Pow(base, l2 - 1) <= x < Pow(base, l2)
    ensures l1 == l2
  {
    if l1 < l2 {
      if l1 < l2 - 1 { PowStrictlyIncreasing(base, l1, l2 - 1); }
    } else if l2 < l1 {
      if l2 < l1 - 1 { PowStrictlyIncreasing(base, l2, l1 - 1); }
    }
  }

  /** A byte string whose last byte is not zero has exactly |bs| base-256 digits. */
  lemma ByteLength(bs: seq<Byte>)
    requires |bs| > 0 && bs[|bs| - 1] > 0
    ensures Pow(256, |bs| - 1) <= BytesToLong(bs) < Pow(256, |bs|)
  {
    TopByteBounds(bs);
    var t: int, p := bs[|bs| - 1], Pow(256, |bs| - 1);
    MulMonotone(1, t, p);
    MulMonotone(t + 1, 256, p);
  }

  /** A number between 16^(L-1) and 16^L renders to L hex digits. */
  lemma HexDigitCount(c: nat, l: nat)
    requires l >= 1 && Pow(16, l - 1) <= c < Pow(16, l)
    ensures |FormatHex(c)| == l
  {
    PowPositive(16, l - 1);
    var h := FormatHex(c);
    assert HasHexLength(c, |h|);
    LengthFromBounds(16, c, |h|, l);
  }

  lemma NibblePowers(k: nat)
    requires k >= 1
    ensures Pow(16, 2 * k - 2) == Pow(256, k - 1)
    ensures Pow(16, 2 * k - 1) == 16 * Pow(256, k - 1)
    ensures Pow(16, 2 * k) == 256 * Pow(256, k - 1)
  {
    ByteIsTwoNibbles(k - 1);
    assert Pow(16, 2 * k - 1) == 16 * Pow(16, 2 * k - 2);
    assert Pow(16, 2 * k) == 16 * Pow(16, 2 * k - 1);
  }

  /** The digit count in base 16 of a value bracketed by its top byte. */
  lemma TopByteHexLength(c: nat, t: int, k: nat)
    requires k >= 1 && 1 <= t < 256
    requires t * Pow(256, k - 1) <= c < (t + 1) * Pow(256, k - 1)
    ensures t < 16 ==> |FormatHex(c)| == 2 * k - 1
    ensures t >= 16 ==> |FormatHex(c)| == 2 * k
  {
    var p := Pow(256, k - 1);
    NibblePowers(k);
    if t < 16 {
      MulMonotone(1, t, p);
      MulMonotone(t + 1, 16, p);
      HexDigitCount(c, 2 * k - 1);
    } else {
      MulMonotone(16, t, p);
      MulMonotone(t + 1, 256, p);
      HexDigitCount(c, 2 * k);
    }
  }

  /** The hex rendering of an encoded message has 2|bs| - 1 digits when the
      last byte is below 0x10 and 2|bs| digits when it is at least 0x10. */
  lemma HexLength(bs: seq<Byte>)
    requires |bs| > 0 && bs[|bs| - 1] > 0
    ensures bs[|bs| - 1] < 16 ==> |FormatHex(BytesToLong(bs))| == 2 * |bs| - 1
    ensures bs[|bs| - 1] >= 16 ==> |FormatHex(BytesToLong(bs))| == 2 * |bs|
  {
    TopByteBounds(bs);
    TopByteHexLength(BytesToLong(bs), bs[|bs| - 1], |bs|);
  }

  /** Decoding inverts encoding exactly for the non-empty messages whose
      last byte is at least 0x10. */
  lemma DecodeInvertsEncode(bs: seq<Byte>)
    ensures Decode(BytesToLong(bs)) == Some(bs) <==> |bs| > 0 && bs[|bs| - 1] >= 16
  {
    var c := BytesToLong(bs);
    var r := Decode(c);
    if |bs| > 0 && bs[|bs| - 1] >= 16 {
      HexLength(bs);
      DivModUnique(|FormatHex(c)|, 2, |bs|, 0);
      var b := r.value;
      ByteLength(bs);
      ByteLength(b);
      LengthFromBounds(256, c, |b|, |bs|);
      BytesToLongInjective(b, bs);
    }
  }

  /** The empty message, and one whose last byte is 0x01 to 0x0f, renders
      to an odd number of hex digits, so `bytes.fromhex` raises. */
  lemma DecodeRejectsSmallTopByte(bs: seq<Byte>)
    requires |bs| == 0 || 0 < bs[|bs| - 1] < 16
    ensures Decode(BytesToLong(bs)) == None
  {
    var c := BytesToLong(bs);
    if |bs| > 0 {
      HexLength(bs);
      DivModUnique(|FormatHex(c)|, 2, |bs| - 1, 1);
    } else {
      assert FormatHex(c) == "0";
    }
  }
}

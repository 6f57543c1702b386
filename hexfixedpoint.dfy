/** `twos_complement` of Scripts/python/error_histogram.py: a token of k hex
    digits is read as a 4k-bit two's-complement integer and divided by 2^12,
    the number of fractional bits of the hardware's memory words. The result
    is an exact dyadic rational. */
module HexFixedPoint {
  import opened Numeric
  import opened Results

  /** Fractional bits of a hardware memory word. */
  const FractionBits: nat := 12

  /** 2^12 as a real: the divisor `2 ** 12`. */
  const Scale: real := 4096.0

  /** Why a token is not a hex number: an empty token has no bits to read
      as an integer; any other character than 0-9 and a-f is refused. */
  datatype HexError = EmptyToken | BadHexDigit(token: string)

  predicate IsHexDigit(c: char)
  {
    '0' <= c <= '9' || 'a' <= c <= 'f'
  }

  predicate AllHexDigits(s: string)
  {
    forall k :: 0 <= k < |s| ==> IsHexDigit(s[k])
  }

  predicate IsHexToken(s: string)
  {
    |s| > 0 && AllHexDigits(s)
  }

  function DigitValue(c: char): (d: nat)
    requires IsHexDigit(c)
    ensures d < 16
  {
    if c <= '9' then c as int - '0' as int else c as int - 'a' as int + 10
  }

  /** The digit that writes `d`. */
  function HexDigit(d: nat): (c: char)
    requires d < 16
    ensures IsHexDigit(c) && DigitValue(c) == d
  {
    if d < 10 then ('0' as int + d) as char else ('a' as int + d - 10) as char
  }

  /** The unsigned value of a string of hex digits, most significant first. */
  function HexValue(s: string): (n: nat)
    requires AllHexDigits(s)
    ensures n < Pow2(4 * |s|)
  {
    if s == [] then 0
    else
      var init := s[..|s| - 1];
      Pow2Nibble(4 * |init|);
      16 * HexValue(init) + DigitValue(s[|s| - 1])
  }

  /** Reading the digits from the front instead: the first digit weighs
      2^(4(k-1)). */
  lemma {:induction false} HexValueFront(s: string)
    requires IsHexToken(s)
    ensures HexValue(s) == DigitValue(s[0]) * Pow2(4 * (|s| - 1)) + HexValue(s[1..])
  {
    if |s| > 1 {
      var init, tail := s[..|s| - 1], s[1..];
      HexValueFront(init);
      assert init[1..] == tail[..|tail| - 1];
      var p := Pow2(4 * (|s| - 2));
      Pow2Nibble(4 * (|s| - 2));
      ShiftNibble(HexValue(s), HexValue(init), HexValue(tail), HexValue(init[1..]),
                  DigitValue(s[0]), DigitValue(s[|s| - 1]), p);
    }
  }

  lemma ShiftNibble(whole: int, init: int, tail: int, mid: int, first: int, last: int, p: int)
    requires init == first * p + mid
    requires whole == 16 * init + last
    requires tail == 16 * mid + last
    ensures whole == first * (16 * p) + tail
  {
  }

  /** The k hex digits of `n mod 16^k`, most significant first. */
  function ToHex(n: nat, k: nat): (s: string)
    ensures |s| == k && AllHexDigits(s)
  {
    if k == 0 then [] else ToHex(n / 16, k - 1) + [HexDigit(n % 16)]
  }

  /** Writing a value with k digits keeps it modulo 16^k. */
  lemma {:induction false} HexValueToHex(n: nat, k: nat)
    ensures HexValue(ToHex(n, k)) == n % Pow2(4 * k)
  {
    if k > 0 {
      var s := ToHex(n, k);
      assert s[..k - 1] == ToHex(n / 16, k - 1);
      HexValueToHex(n / 16, k - 1);
      var p := Pow2(4 * (k - 1));
      Pow2Nibble(4 * (k - 1));
      ModNibble(n, p);
    }
  }

  /** `n mod 16p` from the low digit of `n` and `n / 16 mod p`. */
  lemma ModNibble(n: nat, p: nat)
    requires p >= 1
    ensures n % (16 * p) == 16 * ((n / 16) % p) + n % 16
  {
    var q, d := n / 16, n % 16;
    var a, b := q / p, q % p;
    assert n == 16 * (p * a + b) + d;
    assert n == (16 * p) * a + (16 * b + d);
    assert 0 <= 16 * b + d < 16 * p;
    DivModUnique(n, 16 * p, a, 16 * b + d);
  }

  /** A token is the k-digit spelling of its own unsigned value. */
  lemma {:induction false} ToHexOfHexValue(s: string)
    requires AllHexDigits(s)
    ensures ToHex(HexValue(s), |s|) == s
  {
    if s != [] {
      var init := s[..|s| - 1];
      var n := HexValue(s);
      assert n / 16 == HexValue(init);
      assert n % 16 == DigitValue(s[|s| - 1]);
      ToHexOfHexValue(init);
      assert HexDigit(DigitValue(s[|s| - 1])) == s[|s| - 1];
    }
  }

  /** The signed integer a k-digit token holds in two's complement: values
      at or above 2^(4k-1) are negative. */
  function SignedValue(s: string): int
    requires IsHexToken(s)
  {
    var n := HexValue(s);
    if n >= Pow2(4 * |s| - 1) then n - Pow2(4 * |s|) else n
  }

  /** `twos_complement(hexstr)`: `BitArray(hex=hexstr).int / 2 ** 12`. The
      result is a real in [-2^(4k-1), 2^(4k-1)) / 4096, negative exactly
      when the leading digit has its top bit set. */
  function TwosComplement(token: string): (r: Result<real, HexError>)
    ensures r.Success? <==> IsHexToken(token)
    ensures token == [] ==> r == Failure(EmptyToken)
    ensures r.Success? ==>
              -(Pow2(4 * |token| - 1) as real) / Scale <= r.value < (Pow2(4 * |token| - 1) as real) / Scale
    ensures r.Success? ==> (r.value < 0.0 <==> DigitValue(token[0]) >= 8)
  {
    if !AllHexDigits(token) then Failure(BadHexDigit(token))
    else if token == [] then Failure(EmptyToken)
    else
      SignedRange(token);
      Success(SignedValue(token) as real / Scale)
  }

  /** The signed value lies in [-2^(4k-1), 2^(4k-1)) and is negative exactly
      when the leading digit is 8 or more. */
  lemma SignedRange(s: string)
    requires IsHexToken(s)
    ensures -(Pow2(4 * |s| - 1) as int) <= SignedValue(s) < Pow2(4 * |s| - 1)
    ensures SignedValue(s) < 0 <==> DigitValue(s[0]) >= 8
  {
    var k := |s|;
    var p := Pow2(4 * (k - 1));
    Pow2Nibble(4 * (k - 1));
    assert Pow2(4 * (k - 1) + 4) == Pow2(4 * k);
    Pow2Half(4 * k);
    assert Pow2(4 * k) == 16 * p;
    assert Pow2(4 * k - 1) == 8 * p;
    HexValueFront(s);
    var n, rest := HexValue(s), HexValue(s[1..]);
    assert rest < p;
    TopDigitSign(n, DigitValue(s[0]), rest, p);
  }

  /** The arithmetic of `SignedRange`: a value whose top digit is `first`
      over a rest below `p` is at least 8p exactly when `first` is 8 or more. */
  lemma TopDigitSign(n: int, first: nat, rest: nat, p: nat)
    requires first < 16 && rest < p && n == first * p + rest
    ensures n < 16 * p
    ensures n >= 8 * p <==> first >= 8
  {
    if first >= 8 {
      MulMonotone(8, first, p);
    } else {
      MulMonotone(first, 7, p);
    }
    MulMonotone(first, 15, p);
  }

  /** Any signed value of the 4k-bit range, written as k digits of two's
      complement, decodes back to itself over 4096. */
  lemma DecodeEncoded(v: int, k: nat)
    requires k >= 1
    requires -(Pow2(4 * k - 1) as int) <= v < Pow2(4 * k - 1)
    ensures TwosComplement(ToHex(if v < 0 then v + Pow2(4 * k) else v, k)) == Success(v as real / Scale)
  {
    var whole, half := Pow2(4 * k), Pow2(4 * k - 1);
    var n := if v < 0 then v + whole else v;
    Pow2Half(4 * k);
    assert 0 <= n < whole;
    HexValueToHex(n, k);
    DivModUnique(n, whole, 0, n);
    var t := ToHex(n, k);
    assert |t| == k && HexValue(t) == n;
    assert Pow2(4 * |t|) == whole && Pow2(4 * |t| - 1) == half;
    DecodeOfValue(t, v);
  }

  /** A token whose unsigned value is `v` taken modulo 2^(4k) decodes to
      `v` over 4096. */
  lemma DecodeOfValue(t: string, v: int)
    requires IsHexToken(t)
    requires -(Pow2(4 * |t| - 1) as int) <= v < Pow2(4 * |t| - 1)
    requires HexValue(t) == if v < 0 then v + Pow2(4 * |t|) else v
    ensures TwosComplement(t) == Success(v as real / Scale)
  {
    Pow2Half(4 * |t|);
  }

  /** Decoding is one-to-one on tokens of one width: two tokens of the same
      length with the same value are the same token. */
  lemma DecodeInjective(s: string, t: string)
    requires IsHexToken(s) && IsHexToken(t) && |s| == |t|
    requires TwosComplement(s) == TwosComplement(t)
    ensures s == t
  {
    SignedRange(s);
    SignedRange(t);
    assert SignedValue(s) == SignedValue(t);
    var n := Pow2(4 * |s|);
    Pow2Add(1, 4 * |s| - 1);
    assert HexValue(s) == HexValue(t);
    ToHexOfHexValue(s);
    ToHexOfHexValue(t);
  }

  /** The four-digit tokens of the expected-output file decode into [-8, 8),
      in steps of 1/4096. */
  lemma WordRange(token: string)
    requires |token| == 4 && TwosComplement(token).Success?
    ensures -8.0 <= TwosComplement(token).value < 8.0
  {
    Pow2Values();
  }

  /** Tokens of one to four digits, such as the possibly short first column
      of an expected-output line, decode into [-8, 8) as well. */
  lemma ShortTokenRange(token: string)
    requires 0 < |token| <= 4 && TwosComplement(token).Success?
    ensures -8.0 <= TwosComplement(token).value < 8.0
  {
    Pow2Monotone(4 * |token| - 1, 15);
    Pow2Values();
    var p := Pow2(4 * |token| - 1) as real;
    assert p <= 32768.0;
    DivBound(p, 32768.0, Scale);
  }

  lemma DivBound(p: real, q: real, d: real)
    requires d > 0.0 && p <= q
    ensures p / d <= q / d
  {
    assert q / d - p / d == (q - p) / d;
  }

  /** A four-digit token, most significant digit first. */
  lemma HexValueWord(s: string)
    requires |s| == 4 && AllHexDigits(s)
    ensures HexValue(s) == 4096 * DigitValue(s[0]) + 256 * DigitValue(s[1]) + 16 * DigitValue(s[2]) + DigitValue(s[3])
  {
    var s3 := s[..3];
    assert HexValue(s) == 16 * HexValue(s3) + DigitValue(s[3]);
    assert s3[..3] == s3;
    HexValueTriple(s3);
  }

  /** A three-digit token, most significant digit first. */
  lemma HexValueTriple(s: string)
    requires |s| == 3 && AllHexDigits(s)
    ensures HexValue(s) == 256 * DigitValue(s[0]) + 16 * DigitValue(s[1]) + DigitValue(s[2])
  {
    var s2, s1 := s[..2], s[..1];
    assert HexValue(s) == 16 * HexValue(s2) + DigitValue(s[2]);
    assert s2[..1] == s1 && s2[1] == s[1];
    assert HexValue(s2) == 16 * HexValue(s1) + DigitValue(s[1]);
    assert s1[..0] == [] && s1[0] == s[0];
    assert HexValue(s1) == DigitValue(s[0]);
  }

  /** Worked values: "fff" is -1/4096 (three digits make a 12-bit word)
      and "0fff" is 4095/4096. */
  lemma ExamplesThreeAndFourDigits()
    ensures TwosComplement("fff") == Success(-1.0 / 4096.0)
    ensures TwosComplement("0fff") == Success(4095.0 / 4096.0)
  {
    Pow2Values();
    HexValueTriple("fff");
    HexValueWord("0fff");
  }

  /** The ends of the four-digit range: "8000" is -8 and "7fff" is
      32767/4096. */
  lemma ExamplesWordEnds()
    ensures TwosComplement("8000") == Success(-8.0)
    ensures TwosComplement("7fff") == Success(32767.0 / 4096.0)
  {
    Pow2Values();
    HexValueWord("8000");
    HexValueWord("7fff");
  }

  /** An empty token and upper-case digits are refused. */
  lemma ExamplesRefused()
    ensures TwosComplement("") == Failure(EmptyToken)
    ensures TwosComplement("0FFF") == Failure(BadHexDigit("0FFF"))
  {
    assert !IsHexDigit("0FFF"[1]);
  }
}

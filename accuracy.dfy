/** The regression-test accuracy script Elpida/test_regression/accuracy.py:
    `isclose` reads two W-bit strings of the hardware's output as unsigned
    fractions with W-1 fractional bits and compares them with a relative and
    an absolute tolerance; the script counts the rows of the results file
    whose two fields are close and reports that count as a percentage of all
    rows. Rows come in already split into fields; Python floats are exact
    reals here. */
module Accuracy {
  import opened Numeric
  import opened Results
  import opened TextOps

  /** `num_of_bits`: the width of one output word. */
  const Bits: nat := 16

  /** The default `rel_tol` and `abs_tol` of `isclose`. */
  const RelTol: real := 0.001
  const AbsTol: real := 0.0001

  /** The exceptions the script can raise: a missing character or field, a
      string `int(_, 2)` refuses, and the division by an empty row count. */
  datatype PyError = IndexError | ValueError | ZeroDivisionError

  predicate IsBinDigit(c: char)
  {
    c == '0' || c == '1'
  }

  predicate AllBinary(s: string)
  {
    forall k :: 0 <= k < |s| ==> IsBinDigit(s[k])
  }

  /** The digits `int` accepts after a `0b` prefix: binary digits, each
      optionally preceded by one underscore. */
  predicate IsGroupedBinary(s: string)
  {
    && |s| > 0
    && IsBinDigit(s[|s| - 1])
    && (forall k :: 0 <= k < |s| ==> IsBinDigit(s[k]) || s[k] == '_')
    && (forall k :: 0 <= k < |s| - 1 ==> s[k] == '_' ==> IsBinDigit(s[k + 1]))
  }

  /** The digits of a grouped literal with its underscores taken out. */
  function Ungrouped(s: string): (d: string)
    ensures |d| <= |s|
    ensures (forall k :: 0 <= k < |s| ==> IsBinDigit(s[k]) || s[k] == '_') ==> AllBinary(d)
  {
    if s == [] then []
    else if s[|s| - 1] == '_' then Ungrouped(s[..|s| - 1])
    else Ungrouped(s[..|s| - 1]) + [s[|s| - 1]]
  }

  /** A literal without underscores is its own digits. */
  lemma {:induction false} UngroupedPlain(s: string)
    requires AllBinary(s)
    ensures Ungrouped(s) == s
  {
    if s != [] {
      UngroupedPlain(s[..|s| - 1]);
    }
  }

  /** The unsigned value of a string of binary digits, most significant
      first. */
  function BinValue(s: string): (n: nat)
    requires AllBinary(s)
    ensures n < Pow2(|s|)
  {
    if s == [] then 0
    else 2 * BinValue(s[..|s| - 1]) + (if s[|s| - 1] == '1' then 1 else 0)
  }

  /** `a[1:num_of_bits]`: the characters after the first, up to index W, cut
      short when `a` is shorter. */
  function FractionDigits(a: string, width: nat): (rest: string)
    requires |a| >= 1 && width >= 1
    ensures |rest| <= width - 1
    ensures rest == a[1..if width < |a| then width else |a|]
  {
    a[1..if width < |a| then width else |a|]
  }

  /** The whitespace `int` skips after a literal: the ASCII space and
      `\t\n\v\f\r`, and the non-ASCII characters `str.isspace` accepts.
      The ASCII separator controls U+001C to U+001F, which `str.isspace`
      accepts, are not skipped by `int`. */
  predicate IntSpace(c: char)
  {
    IsSpace(c) && !(0x1C <= c as int <= 0x1F)
  }

  /** Number of characters `int` skips at the end of `s`. */
  function TrailingIntSpaces(s: string): (n: nat)
    ensures n <= |s|
    ensures forall k :: |s| - n <= k < |s| ==> IntSpace(s[k])
    ensures n < |s| ==> !IntSpace(s[|s| - 1 - n])
  {
    if s == [] || !IntSpace(s[|s| - 1]) then 0 else 1 + TrailingIntSpaces(s[..|s| - 1])
  }

  /** What `int` reads as digits after the `0b` prefix: `a[1:W]` less the
      trailing whitespace `int` ignores. */
  function LiteralBody(a: string, width: nat): (body: string)
    requires |a| >= 1 && width >= 1
    ensures |body| <= width - 1
  {
    var rest := FractionDigits(a, width);
    rest[..|rest| - TrailingIntSpaces(rest)]
  }

  /** `int(a[0]+'b'+a[1:W], 2) / 2**(W-1)`. Since 'b' is not a binary digit,
      `int` accepts the literal only in its prefixed form `0b...`: the first
      character must be '0' and the literal body must be grouped binary
      digits. The value is an unsigned fraction in [0, 1 - 2^-(W-1)]; an
      empty `a` has no `a[0]`. */
  function DecodeFraction(a: string, width: nat): (r: Result<real, PyError>)
    requires width >= 1
    ensures r == Failure(IndexError) <==> |a| == 0
    ensures |a| > 0 && a[0] != '0' ==> r == Failure(ValueError)
    ensures r.Failure? ==> r.error != ZeroDivisionError
    ensures r.Success? ==> 0.0 <= r.value <= 1.0 - 1.0 / Pow2(width - 1) as real
  {
    if |a| == 0 then Failure(IndexError)
    else
      var body := LiteralBody(a, width);
      if a[0] == '0' && IsGroupedBinary(body) then
        var digits := Ungrouped(body);
        Pow2Monotone(|digits|, width - 1);
        FractionBound(BinValue(digits), Pow2(width - 1));
        Success(BinValue(digits) as real / Pow2(width - 1) as real)
      else Failure(ValueError)
  }

  /** `int` refuses a literal with a character that is neither a binary
      digit, an underscore nor whitespace it skips, wherever it stands in
      `a[1:W]`. */
  lemma RefusesStrayCharacter(a: string, width: nat, k: nat)
    requires width >= 1 && |a| >= 1
    requires k < |FractionDigits(a, width)|
    requires var c := FractionDigits(a, width)[k]; !IsBinDigit(c) && c != '_' && !IntSpace(c)
    ensures DecodeFraction(a, width) == Failure(ValueError)
  {
    var rest := FractionDigits(a, width);
    var body := LiteralBody(a, width);
    assert k < |body| && body[k] == rest[k];
  }

  /** `int` refuses a literal whose `a[1:W]` holds no binary digit at all:
      an empty remainder, or only underscores and whitespace. */
  lemma RefusesNoDigits(a: string, width: nat)
    requires width >= 1 && |a| >= 1
    requires forall k :: 0 <= k < |FractionDigits(a, width)| ==> !IsBinDigit(FractionDigits(a, width)[k])
    ensures DecodeFraction(a, width) == Failure(ValueError)
  {
    var rest := FractionDigits(a, width);
    var body := LiteralBody(a, width);
    if body != [] {
      assert body[|body| - 1] == rest[|body| - 1];
    }
  }

  /** An accepted literal decodes to the value of its digits, underscores
      taken out, over 2^(W-1). */
  lemma DecodeValue(a: string, width: nat)
    requires width >= 1 && |a| >= 1 && a[0] == '0'
    requires IsGroupedBinary(LiteralBody(a, width))
    ensures var digits := Ungrouped(LiteralBody(a, width));
            AllBinary(digits) &&
            DecodeFraction(a, width) == Success(BinValue(digits) as real / Pow2(width - 1) as real)
  {
  }

  /** n / p lies in [0, 1 - 1/p] for 0 <= n < p. */
  lemma FractionBound(n: nat, p: nat)
    requires n < p
    ensures 0.0 <= n as real / p as real <= 1.0 - 1.0 / p as real
  {
    var d := p as real;
    DivMonotone(n as real, d - 1.0, d);
    assert (d - 1.0) / d == 1.0 - 1.0 / d;
    DivMonotone(0.0, n as real, d);
  }

  lemma DivMonotone(x: real, y: real, d: real)
    requires d > 0.0 && x <= y
    ensures x / d <= y / d
  {
    assert y / d - x / d == (y - x) / d;
  }

  /** A string of plain binary digits that starts with '0' decodes to the
      value of its characters 1 .. W-1 over 2^(W-1). */
  lemma DecodePlain(a: string, width: nat)
    requires width >= 1 && |a| >= 1 && a[0] == '0'
    requires var rest := FractionDigits(a, width); |rest| > 0 && AllBinary(rest)
    ensures DecodeFraction(a, width)
            == Success(BinValue(FractionDigits(a, width)) as real / Pow2(width - 1) as real)
  {
    var rest := FractionDigits(a, width);
    assert TrailingIntSpaces(rest) == 0 by {
      assert !IntSpace(rest[|rest| - 1]);
    }
    assert rest[..|rest|] == rest;
    assert LiteralBody(a, width) == rest;
    UngroupedPlain(rest);
    DecodeValue(a, width);
  }

  /** Characters from index W on are never read. */
  lemma DecodeIgnoresTail(a: string, width: nat)
    requires width >= 1 && |a| >= width
    ensures DecodeFraction(a, width) == DecodeFraction(a[..width], width)
  {
    assert FractionDigits(a, width) == FractionDigits(a[..width], width);
  }

  /** A worked value with W = 16: "0100000000000000" is 1/2. */
  lemma DecodeHalf()
    ensures DecodeFraction("0100000000000000", Bits) == Success(0.5)
  {
    var half := "0100000000000000";
    HalfDigits();
    DecodePlain(half, Bits);
    Pow2Values();
    HalfRatio(BinValue(FractionDigits(half, Bits)), Pow2(Bits - 1));
  }

  lemma HalfRatio(n: nat, p: nat)
    requires n == 16384 && p == 32768
    ensures n as real / p as real == 0.5
  {
  }

  /** A leading '1' is refused rather than read as a negative number. */
  lemma DecodeLeadingOne()
    ensures DecodeFraction("1100000000000000", Bits) == Failure(ValueError)
  {
    var a := "1100000000000000";
    assert a[0] == '1';
  }

  /** The fraction digits of "0100000000000000" are the top bit alone. */
  lemma HalfDigits()
    ensures var rest := FractionDigits("0100000000000000", Bits);
            |rest| > 0 && AllBinary(rest) && BinValue(rest) == 16384
  {
    var half := "0100000000000000";
    var rest := half[1..];
    assert FractionDigits(half, Bits) == rest;
    assert rest == "100000000000000";
    BinValueHigh(rest);
    Pow2Values();
    Pow2Half(15);
  }

  /** Underscores between digits and trailing whitespace are accepted, as
      `int` accepts them: "01_1 " is 3/2^15. */
  lemma DecodeGrouped()
    ensures DecodeFraction("01_1 ", Bits) == Success(3.0 / 32768.0)
  {
    var a := "01_1 ";
    GroupedBody();
    assert LiteralBody(a, Bits) == "1_1";
    DecodeValue(a, Bits);
    Pow2Values();
  }

  /** The body of "01_1 " is "1_1", grouped, with digits "11" worth 3. */
  lemma GroupedBody()
    ensures LiteralBody("01_1 ", Bits) == "1_1"
    ensures IsGroupedBinary("1_1") && Ungrouped("1_1") == "11" && BinValue("11") == 3
  {
    var body := "1_1";
    var rest := body + " ";
    assert FractionDigits("01_1 ", Bits) == rest;
    assert rest[..|rest| - 1] == body;
    assert TrailingIntSpaces(rest) == 1 by {
      assert !IntSpace(body[|body| - 1]);
    }
    assert body[..2] == "1_" && "1_"[..1] == "1" && "1"[..0] == "";
    assert "11"[..1] == "1";
  }

  /** A string with nothing after its first character has no digits and is
      refused. */
  lemma DecodeSignOnly()
    ensures DecodeFraction("0", Bits) == Failure(ValueError)
  {
    assert FractionDigits("0", Bits) == "";
  }

  /** The k binary digits of `n mod 2^k`, most significant first. */
  function ToBin(n: nat, k: nat): (s: string)
    ensures |s| == k && AllBinary(s)
  {
    if k == 0 then [] else ToBin(n / 2, k - 1) + [if n % 2 == 1 then '1' else '0']
  }

  /** Writing a value with k binary digits keeps it modulo 2^k. */
  lemma {:induction false} BinValueToBin(n: nat, k: nat)
    ensures BinValue(ToBin(n, k)) == n % Pow2(k)
  {
    if k > 0 {
      var s := ToBin(n, k);
      assert s[..k - 1] == ToBin(n / 2, k - 1);
      BinValueToBin(n / 2, k - 1);
      ModHalf(n, Pow2(k - 1));
    }
  }

  /** `n mod 2p` from the low bit of `n` and `n / 2 mod p`. */
  lemma ModHalf(n: nat, p: nat)
    requires p >= 1
    ensures n % (2 * p) == 2 * ((n / 2) % p) + n % 2
  {
    var q, d := n / 2, n % 2;
    var a, b := q / p, q % p;
    assert n == 2 * (p * a + b) + d;
    assert n == (2 * p) * a + (2 * b + d);
    DivModUnique(n, 2 * p, a, 2 * b + d);
  }

  /** A string of binary digits is the spelling of its own value. */
  lemma {:induction false} ToBinOfBinValue(s: string)
    requires AllBinary(s)
    ensures ToBin(BinValue(s), |s|) == s
  {
    if s != [] {
      var init := s[..|s| - 1];
      var b := if s[|s| - 1] == '1' then 1 else 0;
      var n := BinValue(s);
      assert n == 2 * BinValue(init) + b;
      assert n / 2 == BinValue(init) && n % 2 == b;
      ToBinOfBinValue(init);
      assert s == init + [s[|s| - 1]];
    }
  }

  /** The W-character string that writes the fraction n / 2^(W-1): a '0'
      and the W-1 digits of `n`. */
  function EncodeFraction(n: nat, width: nat): (a: string)
    requires width >= 1
    ensures |a| == width && a[0] == '0'
  {
    "0" + ToBin(n, width - 1)
  }

  /** Round trip: every fraction n / 2^(W-1) with n < 2^(W-1), written as
      '0' and W-1 binary digits, decodes to itself. */
  lemma DecodeEncodedFraction(n: nat, width: nat)
    requires width >= 2 && n < Pow2(width - 1)
    ensures DecodeFraction(EncodeFraction(n, width), width)
            == Success(n as real / Pow2(width - 1) as real)
  {
    var t := ToBin(n, width - 1);
    DecodeZeroThen(t, width);
    BinValueToBin(n, width - 1);
    DivModUnique(n, Pow2(width - 1), 0, n);
  }

  /** '0' followed by W-1 binary digits decodes to the value of the digits. */
  lemma DecodeZeroThen(t: string, width: nat)
    requires width >= 2 && |t| == width - 1 && AllBinary(t)
    ensures DecodeFraction("0" + t, width) == Success(BinValue(t) as real / Pow2(width - 1) as real)
  {
    var a := "0" + t;
    assert FractionDigits(a, width) == t;
    DecodePlain(a, width);
  }

  /** The other way round: a string of '0' and W-1 binary digits is the
      encoding of the fraction it decodes to. */
  lemma EncodeDecodedFraction(a: string, width: nat)
    requires width >= 2 && |a| == width && a[0] == '0' && AllBinary(a[1..])
    ensures DecodeFraction(a, width).Success?
    ensures EncodeFraction(BinValue(a[1..]), width) == a
    ensures DecodeFraction(a, width).value == BinValue(a[1..]) as real / Pow2(width - 1) as real
  {
    var t := a[1..];
    assert a == "0" + t;
    DecodeZeroThen(t, width);
    ToBinOfBinValue(t);
  }

  /** A '1' followed only by '0's is the top bit: 2^(n-1). */
  lemma {:induction false} BinValueHigh(s: string)
    requires |s| >= 1 && s[0] == '1'
    requires forall k :: 1 <= k < |s| ==> s[k] == '0'
    ensures AllBinary(s) && BinValue(s) == Pow2(|s| - 1)
  {
    if |s| > 1 {
      BinValueHigh(s[..|s| - 1]);
    }
  }

  /** The comparison `abs(a-b) <= max(rel_tol * max(abs(a), abs(b)),
      abs_tol)` on the decoded values. */
  predicate Close(x: real, y: real, relTol: real, absTol: real)
    ensures Abs(x - y) <= absTol ==> Close(x, y, relTol, absTol)
    ensures relTol <= 0.0 && absTol >= 0.0 ==> (Close(x, y, relTol, absTol) <==> Abs(x - y) <= absTol)
  {
    Abs(x - y) <= Max(relTol * Max(Abs(x), Abs(y)), absTol)
  }

  /** The tolerance rule read as three alternatives for values that are not
      negative: the distance is within the absolute tolerance, or within
      the relative tolerance of either value. */
  predicate Tolerated(x: real, y: real, relTol: real, absTol: real)
  {
    Abs(x - y) <= absTol || Abs(x - y) <= relTol * x || Abs(x - y) <= relTol * y
  }

  /** With a relative tolerance that is not negative, two values that are
      not negative are close exactly when the three alternatives allow it. */
  lemma CloseCases(x: real, y: real, relTol: real, absTol: real)
    requires x >= 0.0 && y >= 0.0
    ensures relTol >= 0.0 ==> (Close(x, y, relTol, absTol) <==> Tolerated(x, y, relTol, absTol))
  {
    if relTol < 0.0 {
    } else if x <= y {
      assert relTol * x <= relTol * y by { assert relTol * y - relTol * x == relTol * (y - x); }
    } else {
      assert relTol * y <= relTol * x by { assert relTol * x - relTol * y == relTol * (x - y); }
    }
  }

  /** `isclose(a, b, num_of_bits, rel_tol, abs_tol)`. Lines 7 and 8 index
      `a[0]` and `b[0]` before either string is parsed, so an empty string
      on either side is an IndexError before any ValueError. There is a
      verdict exactly when both strings decode; then, for a relative
      tolerance that is not negative, the strings are close exactly when
      their fractions are within the absolute tolerance of each other or
      within the relative tolerance of either fraction. */
  function IsClose(a: string, b: string, width: nat, relTol: real, absTol: real): (r: Result<bool, PyError>)
    requires width >= 1
    ensures r == Failure(IndexError) <==> |a| == 0 || |b| == 0
    ensures r.Failure? ==> r.error != ZeroDivisionError
    ensures r.Success? <==> DecodeFraction(a, width).Success? && DecodeFraction(b, width).Success?
    ensures r.Success? && relTol >= 0.0 ==>
              (r.value <==> Tolerated(DecodeFraction(a, width).value, DecodeFraction(b, width).value, relTol, absTol))
  {
    if |a| == 0 || |b| == 0 then Failure(IndexError)
    else
      var x := DecodeFraction(a, width);
      var y := DecodeFraction(b, width);
      if x.Failure? then Failure(x.error)
      else if y.Failure? then Failure(y.error)
      else
        CloseCases(x.value, y.value, relTol, absTol);
        Success(Close(x.value, y.value, relTol, absTol))
  }

  /** The verdict, and the exception, do not depend on the order of the two
      strings. */
  lemma IsCloseSymmetric(a: string, b: string, width: nat, relTol: real, absTol: real)
    requires width >= 1
    ensures IsClose(a, b, width, relTol, absTol) == IsClose(b, a, width, relTol, absTol)
  {
    if |a| > 0 && |b| > 0 {
      var x, y := DecodeFraction(a, width), DecodeFraction(b, width);
      if x.Success? && y.Success? {
        CloseSymmetric(x.value, y.value, relTol, absTol);
      }
    }
  }

  lemma CloseSymmetric(x: real, y: real, relTol: real, absTol: real)
    ensures Close(x, y, relTol, absTol) == Close(y, x, relTol, absTol)
  {
    assert Abs(x - y) == Abs(y - x);
    assert Max(Abs(x), Abs(y)) == Max(Abs(y), Abs(x));
  }

  /** Every decodable string is close to itself, since the absolute
      tolerance is not negative. */
  lemma IsCloseReflexive(a: string, width: nat, relTol: real, absTol: real)
    requires width >= 1 && absTol >= 0.0
    requires DecodeFraction(a, width).Success?
    ensures IsClose(a, a, width, relTol, absTol) == Success(true)
  {
  }

  /** With the script's settings, two words one unit (2^-15) apart or nearer
      are close: one unit is below the absolute tolerance 1e-4. */
  lemma OneUnitApart(a: string, b: string)
    requires DecodeFraction(a, Bits).Success? && DecodeFraction(b, Bits).Success?
    requires Abs(DecodeFraction(a, Bits).value - DecodeFraction(b, Bits).value) <= 1.0 / 32768.0
    ensures IsClose(a, b, Bits, RelTol, AbsTol) == Success(true)
  {
  }

  /** With the script's settings, words further apart than 1e-3 are never
      close: the decoded values are at most 1, so the relative bound is at
      most 1e-3. */
  lemma FarApart(a: string, b: string)
    requires DecodeFraction(a, Bits).Success? && DecodeFraction(b, Bits).Success?
    requires Abs(DecodeFraction(a, Bits).value - DecodeFraction(b, Bits).value) > RelTol
    ensures IsClose(a, b, Bits, RelTol, AbsTol) == Success(false)
  {
    var x, y := DecodeFraction(a, Bits).value, DecodeFraction(b, Bits).value;
    assert Max(Abs(x), Abs(y)) <= 1.0;
    assert RelTol * Max(Abs(x), Abs(y)) <= RelTol;
  }

  /** The test of one row, `isclose(test[0], test[1], num_of_bits)`: a row
      with fewer than two fields has no `test[1]`. The verdict exists exactly
      when both fields decode, and does not depend on which field comes
      first. */
  function RowVerdict(i: nat, row: seq<string>): (r: Result<bool, PyError>)
    ensures |row| < 2 ==> r == Failure(IndexError)
    ensures r.Success? <==>
              |row| >= 2 && DecodeFraction(row[0], Bits).Success? && DecodeFraction(row[1], Bits).Success?
    ensures |row| >= 2 ==> r == IsClose(row[1], row[0], Bits, RelTol, AbsTol)
  {
    if |row| < 2 then Failure(IndexError)
    else
      IsCloseSymmetric(row[0], row[1], Bits, RelTol, AbsTol);
      IsClose(row[0], row[1], Bits, RelTol, AbsTol)
  }

  /** The number of `true` verdicts, counted from the front. */
  function Trues(vs: seq<bool>): (n: nat)
    ensures n <= |vs|
  {
    if vs == [] then 0 else Trues(vs[..|vs| - 1]) + (if vs[|vs| - 1] then 1 else 0)
  }

  lemma TruesStep(vs: seq<bool>, b: bool)
    ensures Trues(vs + [b]) == Trues(vs) + (if b then 1 else 0)
  {
    assert (vs + [b])[..|vs|] == vs;
  }

  /** The count is the multiplicity of `true` among the verdicts. */
  lemma {:induction false} TruesCount(vs: seq<bool>)
    ensures Trues(vs) == multiset(vs)[true]
  {
    if vs != [] {
      var init := vs[..|vs| - 1];
      TruesCount(init);
      assert vs == init + [vs[|vs| - 1]];
      assert multiset(vs) == multiset(init) + multiset{vs[|vs| - 1]};
    }
  }

  /** The final value of `correct`: the number of rows judged close, once
      every row has been tested in order; the first row that raises ends the
      script. */
  function CorrectCount(data: seq<seq<string>>): (r: Result<nat, PyError>)
    ensures r.Success? ==> r.value <= |data|
  {
    match MapIndexed(data, RowVerdict)
    case Failure(e) => Failure(e)
    case Success(vs) => Success(Trues(vs))
  }

  /** One more row tested: a failure is the script's outcome, a verdict
      extends the verdicts and counts if it is `true`. */
  lemma CountRow(data: seq<seq<string>>, i: nat, vs: seq<bool>)
    requires i < |data| && MapIndexed(data[..i], RowVerdict) == Success(vs)
    ensures RowVerdict(i, data[i]).Failure? ==>
              CorrectCount(data) == Failure(RowVerdict(i, data[i]).error)
    ensures RowVerdict(i, data[i]).Success? ==>
              var v := RowVerdict(i, data[i]).value;
              && MapIndexed(data[..i + 1], RowVerdict) == Success(vs + [v])
              && Trues(vs + [v]) == Trues(vs) + (if v then 1 else 0)
  {
    MapIndexedStep(data, RowVerdict, i, vs);
    var verdict := RowVerdict(i, data[i]);
    if verdict.Failure? {
      MapIndexedPrefixFailure(data, RowVerdict, i + 1);
    } else {
      TruesStep(vs, verdict.value);
    }
  }

  /** Once every row has a verdict, the count is that of the `true` ones. */
  lemma CorrectCountOf(data: seq<seq<string>>, vs: seq<bool>)
    requires MapIndexed(data[..|data|], RowVerdict) == Success(vs)
    ensures CorrectCount(data) == Success(Trues(vs))
  {
    assert data[..|data|] == data;
  }

  /** What the script prints: `correct / len(data) * 100`; an empty file
      divides by zero. */
  function Accuracy(data: seq<seq<string>>): (r: Result<real, PyError>)
    ensures r.Success? ==> 0.0 <= r.value <= 100.0
    ensures data == [] ==> r == Failure(ZeroDivisionError)
  {
    match CorrectCount(data)
    case Failure(e) => Failure(e)
    case Success(correct) =>
      if |data| == 0 then Failure(ZeroDivisionError) else Success(Percent(correct, |data|))
  }

  /** The module-level loop of the script, counting `correct` one row at a
      time. */
  method CountCorrect(data: seq<seq<string>>) returns (r: Result<nat, PyError>)
    ensures r == CorrectCount(data)
  {
    var correct := 0;
    var i := 0;
    ghost var vs: seq<bool> := [];
    while i < |data|
      invariant 0 <= i <= |data|
      invariant MapIndexed(data[..i], RowVerdict) == Success(vs)
      invariant correct == Trues(vs)
    {
      var verdict := RowVerdict(i, data[i]);
      CountRow(data, i, vs);
      if verdict.Failure? {
        return Failure(verdict.error);
      }
      if verdict.value {
        correct := correct + 1;
      }
      vs := vs + [verdict.value];
      i := i + 1;
    }
    PrefixWhole(data);
    CorrectCountOf(data, vs);
    r := Success(correct);
  }

  /** The whole script after reading the file: the loop, then the
      percentage it prints. */
  method ComputeAccuracy(data: seq<seq<string>>) returns (r: Result<real, PyError>)
    ensures r == Accuracy(data)
  {
    var counted := CountCorrect(data);
    if counted.Failure? {
      return Failure(counted.error);
    }
    if |data| == 0 {
      return Failure(ZeroDivisionError);
    }
    r := Success(Percent(counted.value, |data|));
  }

  /** The script reports a percentage exactly when the file has rows and
      every row has two decodable fields; the percentage is that of the rows
      judged close. */
  lemma AccuracySpec(data: seq<seq<string>>)
    ensures Accuracy(data).Success? <==>
              |data| > 0 && forall i :: 0 <= i < |data| ==> RowVerdict(i, data[i]).Success?
    ensures Accuracy(data).Success? ==>
              var vs := MapIndexed(data, RowVerdict).value;
              && |vs| == |data|
              && (forall i :: 0 <= i < |data| ==> vs[i] == RowVerdict(i, data[i]).value)
              && Accuracy(data).value == Percent(multiset(vs)[true], |data|)
  {
    MapIndexedSuccess(data, RowVerdict);
    if MapIndexed(data, RowVerdict).Success? {
      TruesCount(MapIndexed(data, RowVerdict).value);
    }
  }

  /** The first row without two fields, or with a field `int` refuses, is
      the exception the script stops with. */
  lemma AccuracyFirstError(data: seq<seq<string>>, k: nat)
    requires k < |data|
    requires forall i :: 0 <= i < k ==> RowVerdict(i, data[i]).Success?
    requires RowVerdict(k, data[k]).Failure?
    ensures Accuracy(data) == Failure(RowVerdict(k, data[k]).error)
    ensures RowVerdict(k, data[k]).error != ZeroDivisionError
  {
    MapIndexedFirstFailure(data, RowVerdict, k);
  }

  /** When every row is close the script reports 100%. */
  lemma AllClose(data: seq<seq<string>>)
    requires |data| > 0
    requires forall i :: 0 <= i < |data| ==> RowVerdict(i, data[i]) == Success(true)
    ensures Accuracy(data) == Success(100.0)
  {
    MapIndexedSuccess(data, RowVerdict);
    var vs := MapIndexed(data, RowVerdict).value;
    AllTrue(vs);
    PercentWhole(|data|);
  }

  lemma {:induction false} AllTrue(vs: seq<bool>)
    requires forall i :: 0 <= i < |vs| ==> vs[i]
    ensures Trues(vs) == |vs|
  {
    if vs != [] {
      AllTrue(vs[..|vs| - 1]);
    }
  }
}

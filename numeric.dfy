/** Exact arithmetic shared by the decoders: powers of two, absolute value
    and maximum over the reals that stand for Python floats. */
module Numeric {

  /** 2^n. */
  function Pow2(n: nat): (p: nat)
    ensures p >= 1
  {
    if n == 0 then 1 else 2 * Pow2(n - 1)
  }

  lemma {:induction false} Pow2Add(m: nat, n: nat)
    ensures Pow2(m + n) == Pow2(m) * Pow2(n)
  {
    if n > 0 {
      Pow2Add(m, n - 1);
      assert Pow2(m + n) == 2 * Pow2(m + n - 1);
    }
  }

  /** One more bit doubles the range. */
  lemma Pow2Half(n: nat)
    requires n >= 1
    ensures Pow2(n) == 2 * Pow2(n - 1)
  {
  }

  /** Four more bits make the range of a token sixteen times wider. */
  lemma Pow2Nibble(n: nat)
    ensures Pow2(n + 4) == 16 * Pow2(n)
  {
    Pow2Add(n, 4);
    assert Pow2(4) == 16;
  }

  lemma Pow2Monotone(m: nat, n: nat)
    requires m <= n
    ensures Pow2(m) <= Pow2(n)
  {
    Pow2Add(m, n - m);
  }

  /** The powers of two the decoders divide by, worked out. */
  lemma Pow2Values()
    ensures Pow2(3) == 8 && Pow2(11) == 2048 && Pow2(12) == 4096
    ensures Pow2(15) == 32768 && Pow2(16) == 65536
  {
    Pow2Add(3, 3);
    Pow2Add(6, 5);
    Pow2Add(6, 6);
    Pow2Add(12, 3);
    Pow2Add(12, 4);
  }

  lemma MulMonotone(a: int, b: int, c: nat)
    requires a <= b
    ensures a * c <= b * c
  {
    assert b * c == a * c + (b - a) * c;
  }

  /** The remainder of `n` by `m` is the one remainder in [0, m). */
  lemma DivModUnique(n: int, m: nat, q: int, r: int)
    requires m > 0 && 0 <= r < m && n == m * q + r
    ensures n % m == r
  {
    var q', r' := n / m, n % m;
    assert m * (q - q') == r' - r;
    if q - q' >= 1 {
      assert m * (q - q') == m * (q - q' - 1) + m;
    }
    if q' - q >= 1 {
      assert m * (q' - q) == m * (q' - q - 1) + m;
    }
  }

  /** `part` out of `whole` as a percentage. */
  function Percent(part: nat, whole: nat): (r: real)
    requires whole > 0
    ensures part <= whole ==> 0.0 <= r <= 100.0
  {
    var w := whole as real;
    var q := part as real / w;
    assert q * w == part as real;
    (part as real / w) * 100.0
  }

  /** A larger part is a larger percentage of the same whole. */
  lemma PercentMonotone(a: nat, b: nat, whole: nat)
    requires whole > 0 && a <= b
    ensures Percent(a, whole) <= Percent(b, whole)
  {
    var w := whole as real;
    var qa, qb := a as real / w, b as real / w;
    assert qa * w == a as real;
    assert qb * w == b as real;
    assert (qb - qa) * w == (b - a) as real;
    assert qa <= qb;
  }

  /** The whole of anything is 100 percent of it. */
  lemma PercentWhole(whole: nat)
    requires whole > 0
    ensures Percent(whole, whole) == 100.0
  {
    var w := whole as real;
    assert w / w == 1.0;
  }

  function Abs(x: real): (r: real)
    ensures r >= 0.0 && (r == x || r == -x)
  {
    if x < 0.0 then -x else x
  }

  function Max(x: real, y: real): (r: real)
    ensures r >= x && r >= y && (r == x || r == y)
  {
    if x < y then y else x
  }
}

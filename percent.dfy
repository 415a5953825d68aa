/**
 * The percentage shown on the results page, `(raw_score / len(questions)) * 100`,
 * as Python evaluates it: two IEEE 754 binary64 operations, each rounded to
 * nearest with ties to even, whose result is then compared exactly with the
 * integer pass mark.
 */
module Percent {
  import opened Grading

  function Pow2(k: nat): (r: nat)
    ensures r >= 1
  {
    if k == 0 then 1 else 2 * Pow2(k - 1)
  }

  lemma {:induction false} Pow2Add(a: nat, b: nat)
    ensures Pow2(a + b) == Pow2(a) * Pow2(b)
  {
    if a > 0 {
      Pow2Add(a - 1, b);
    }
  }

  /** The powers of two the example below needs. */
  lemma Pow2Table()
    ensures Pow2(47) == 0x8000_0000_0000 && Pow2(48) == 0x1_0000_0000_0000
    ensures Pow2(54) == 0x40_0000_0000_0000 && Pow2(53) == 2 * Hidden
  {
    assert Pow2(10) == 0x400 && Pow2(7) == 0x80 && Pow2(8) == 0x100 && Pow2(4) == 0x10;
    Pow2Add(10, 10);
    Pow2Add(20, 20);
    Pow2Add(40, 7);
    Pow2Add(40, 8);
    Pow2Add(48, 4);
    Pow2Add(52, 1);
    Pow2Add(52, 2);
  }

  /** A non-negative binary64 value below 2^53, `m / 2^k`. */
  datatype Double = Double(m: nat, k: nat)

  lemma MulLe(a: nat, b: nat, c: nat)
    requires a <= b
    ensures a * c <= b * c
  {
  }

  lemma MulSucc(a: nat, c: nat)
    ensures (a + 1) * c == a * c + c
  {
  }

  lemma DivBounds(n: nat, q: nat, lo: nat, hi: nat)
    requires q > 0 && lo * q <= n < hi * q
    ensures lo <= n / q < hi
  {
    var m, r := n / q, n % q;
    assert n == m * q + r;
    if m < lo {
      MulLe(m + 1, lo, q);
      MulSucc(m, q);
    }
    if m >= hi {
      MulLe(hi, m, q);
    }
  }

  /** The unit of the mantissa's leading bit, 2^52: binary64 keeps 53 significant bits. */
  const Hidden: nat := 0x10_0000_0000_0000

  /**
   * The dividend `n` doubled until it reaches `2^52 * q`, with the number
   * of doublings: the exponent that brings `n / q` into the mantissa range.
   */
  function Scale(n: nat, q: nat): (r: (nat, nat))
    requires n > 0 && q > 0
    ensures r.1 == n * Pow2(r.0) && r.1 >= Hidden * q
    ensures r.0 == 0 || r.1 < 2 * Hidden * q
    decreases Hidden * q - n
  {
    if n >= Hidden * q then (0, n)
    else
      var s := Scale(2 * n, q);
      assert (2 * n) * Pow2(s.0) == n * (2 * Pow2(s.0));
      (s.0 + 1, s.1)
  }

  /** The exponent `Scale` finds is the one that satisfies both bounds. */
  lemma {:induction false} ScaleIs(n: nat, q: nat, k: nat)
    requires n > 0 && q > 0
    requires n * Pow2(k) >= Hidden * q
    requires k == 0 || n * Pow2(k - 1) < Hidden * q
    ensures Scale(n, q).0 == k
    decreases k
  {
    if k > 0 {
      MulLe(1, Pow2(k - 1), n);
      assert (2 * n) * Pow2(k - 1) == n * Pow2(k);
      if k > 1 {
        assert (2 * n) * Pow2(k - 2) == n * Pow2(k - 1);
      }
      ScaleIs(2 * n, q, k - 1);
    }
  }

  /** `n / q` rounded to the nearest integer, ties to the even one. */
  function RoundHalfEven(n: nat, q: nat): (m: nat)
    requires q > 0
    ensures 2 * (n % q) < q ==> m == n / q
    ensures 2 * (n % q) > q ==> m == n / q + 1
    ensures 2 * (n % q) == q ==> m % 2 == 0 && n / q <= m <= n / q + 1
  {
    var m0, r := n / q, n % q;
    if 2 * r > q || (2 * r == q && m0 % 2 == 1) then m0 + 1 else m0
  }

  /** A scaled quotient of at most one is at most the scale. */
  lemma ScaledAtMostOne(p: nat, q: nat, k: nat)
    requires 0 < q
    ensures p <= q ==> p * Pow2(k) / q <= Pow2(k)
    ensures p <= q && p * Pow2(k) / q == Pow2(k) ==> p * Pow2(k) % q == 0
  {
    if p <= q {
      var n := p * Pow2(k);
      MulLe(p, q, Pow2(k));
      MulSucc(Pow2(k), q);
      DivBounds(n, q, 0, Pow2(k) + 1);
      assert n == (n / q) * q + n % q;
    }
  }

  /**
   * The binary64 value nearest to `p / q`, ties to even: the result of
   * Python's true division of two integers, for quotients below 2^52.
   * The exponent puts `p / q * 2^k` in `[2^52, 2^53)`, and the 53-bit
   * mantissa is that value rounded.
   */
  function RoundQuotient(p: nat, q: nat): (d: Double)
    requires q > 0 && p < Hidden * q
    ensures p == 0 ==> d == Double(0, 0)
    ensures p > 0 ==> Hidden * q <= p * Pow2(d.k) < 2 * Hidden * q
    ensures p > 0 ==> d.m == RoundHalfEven(p * Pow2(d.k), q)
    ensures p > 0 ==> Hidden <= d.m <= 2 * Hidden
    ensures p <= q ==> d.m <= Pow2(d.k)
  {
    if p == 0 then Double(0, 0)
    else
      var (k, n) := Scale(p, q);
      DivBounds(n, q, Hidden, 2 * Hidden);
      ScaledAtMostOne(p, q, k);
      Double(RoundHalfEven(n, q), k)
  }

  /** `d >= passMark`, the exact comparison of a float with an int. */
  predicate AtLeast(d: Double, passMark: int) {
    d.m >= passMark * Pow2(d.k)
  }

  /** `(raw_score / len(questions)) * 100` in binary64 arithmetic. */
  function FloatPercent(score: nat, count: nat): (d: Double)
    requires 0 < count && score <= count
    ensures score == 0 ==> d == Double(0, 0)
    ensures score > 0 ==> Hidden <= d.m <= 2 * Hidden
  {
    var quotient := RoundQuotient(score, count);
    MulLe(quotient.m, Pow2(quotient.k), 100);
    MulLe(100, Hidden, Pow2(quotient.k));
    RoundQuotient(quotient.m * 100, Pow2(quotient.k))
  }

  /** The verdict of the results page as written: `pct >= pass_mark` on the float. */
  predicate FloatPasses(score: nat, count: nat, passMark: int): (pass: bool)
    requires 0 < count && score <= count
    ensures passMark <= 0 ==> pass
    ensures score == 0 ==> (pass <==> passMark <= 0)
  {
    AtLeast(FloatPercent(score, count), passMark)
  }

  /**
   * With 100 questions, 29 right answers and a pass mark of 29, the score is
   * exactly the pass mark, but `29 / 100 * 100` evaluates to
   * 28.999999999999996 and the student is shown a fail.
   */
  lemma FloatVerdictMissesPassMark()
    ensures Passes(29, 100, 29) && !FloatPasses(29, 100, 29)
  {
    Pow2Table();
    ScaleIs(29, 100, 54);
    var quotient := RoundQuotient(29, 100);
    assert quotient == Double(5224175567749775, 54);
    ScaleIs(522417556774977500, Pow2(54), 48);
    assert FloatPercent(29, 100) == Double(8162774324609023, 48);
  }
}
